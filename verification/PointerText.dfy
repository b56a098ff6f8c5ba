/** JSON Pointer text: the syntax of section 3 of RFC 6901, its parser and its array indices. */
module PointerText {
  import opened ByteStrings
  import opened Wrappers

  // ---------------------------------------------------------------- syntax

  /** The status codes shared by parsing, resolving and writing. */
  datatype SpliceStatus =
    | Ok | SettableFail | WriteFail | DepthFail | TooLarge | InfOrNan | InvalidUtf8 | Ambiguous

  function EscapeSegment(s: Bytes): Bytes {
    if s == [] then []
    else (if s[0] == TILDE then [TILDE, DIGIT_0] else if s[0] == SLASH then [TILDE, DIGIT_1] else [s[0]])
         + EscapeSegment(s[1..])
  }

  /** The pointer that names a list of segments. */
  function PointerOf(segs: seq<Bytes>): Bytes {
    if segs == [] then [] else [SLASH] + EscapeSegment(segs[0]) + PointerOf(segs[1..])
  }

  function Prepend<T>(a: seq<T>, b: Option<seq<T>>): Option<seq<T>> {
    match b
    case None => None
    case Some(rest) => Some(a + rest)
  }

  lemma PrependTwice<T>(a: seq<T>, b: seq<T>, c: Option<seq<T>>)
    ensures Prepend(a, Prepend(b, c)) == Prepend(a + b, c)
    ensures Prepend([], c) == c
  {
    if c.Some? {
      assert a + (b + c.value) == (a + b) + c.value;
      assert [] + c.value == c.value;
    }
  }

  /** The segment spelled by `p[i..e]`, unless a `~` is not followed by `0` or `1`. */
  function Unescape(p: Bytes, i: nat, e: nat): Option<Bytes>
    requires i <= e <= |p|
    decreases e - i
  {
    if i == e then Some([])
    else if p[i] != TILDE then Prepend([p[i]], Unescape(p, i + 1, e))
    else if i + 1 < e && p[i + 1] == DIGIT_0 then Prepend([TILDE], Unescape(p, i + 2, e))
    else if i + 1 < e && p[i + 1] == DIGIT_1 then Prepend([SLASH], Unescape(p, i + 2, e))
    else None
  }

  /** Where the segment that holds position `i` ends: at the next slash or at the end. */
  function SegmentEnd(p: Bytes, i: nat): (e: nat)
    requires i <= |p|
    ensures i <= e <= |p|
    ensures forall k :: i <= k < e ==> p[k] != SLASH
    ensures e < |p| ==> p[e] == SLASH
    decreases |p| - i
  {
    if i == |p| || p[i] == SLASH then i else SegmentEnd(p, i + 1)
  }

  /** The segments from the one that begins at `start` on. */
  function ParseFrom(p: Bytes, start: nat): Option<seq<Bytes>>
    requires start <= |p|
    decreases |p| - start
  {
    var e := SegmentEnd(p, start);
    match Unescape(p, start, e)
    case None => None
    case Some(s) => if e == |p| then Some([s]) else Prepend([s], ParseFrom(p, e + 1))
  }

  function Parse(p: Bytes): Option<seq<Bytes>> {
    if p == [] then Some([]) else if p[0] != SLASH then None else ParseFrom(p, 1)
  }

  // ---------------------------------------------------------------- printing and parsing are inverse

  lemma UnescapeShift(a: Bytes, b: Bytes, i: nat, e: nat)
    requires i <= e <= |b|
    ensures Unescape(a + b, |a| + i, |a| + e) == Unescape(b, i, e)
    decreases e - i
  {
    if i < e {
      UnescapeShift(a, b, i + 1, e);
      if i + 1 < e {
        UnescapeShift(a, b, i + 2, e);
      }
    }
  }

  lemma UnescapeCut(p: Bytes, q: Bytes, i: nat, e: nat)
    requires i <= e <= |p| && e <= |q| && p[..e] == q[..e]
    ensures Unescape(p, i, e) == Unescape(q, i, e)
    decreases e - i
  {
    if i < e {
      assert p[i] == p[..e][i] == q[i];
      assert i + 1 < e ==> p[i + 1] == p[..e][i + 1] == q[i + 1];
      UnescapeCut(p, q, i + 1, e);
      if i + 1 < e {
        UnescapeCut(p, q, i + 2, e);
      }
    }
  }

  lemma {:induction false} EscapedHasNoSlash(s: Bytes)
    ensures SLASH !in EscapeSegment(s)
  {
    if s != [] {
      EscapedHasNoSlash(s[1..]);
    }
  }

  lemma {:induction false} UnescapeInvertsEscape(s: Bytes)
    ensures Unescape(EscapeSegment(s), 0, |EscapeSegment(s)|) == Some(s)
  {
    if s != [] {
      UnescapeInvertsEscape(s[1..]);
      var head := if s[0] == TILDE then [TILDE, DIGIT_0] else if s[0] == SLASH then [TILDE, DIGIT_1] else [s[0]];
      UnescapeShift(head, EscapeSegment(s[1..]), 0, |EscapeSegment(s[1..])|);
      assert s == [s[0]] + s[1..];
    }
  }

  lemma {:induction false} SegmentEndIs(p: Bytes, i: nat, e: nat)
    requires i <= e <= |p| && (forall k :: i <= k < e ==> p[k] != SLASH) && (e < |p| ==> p[e] == SLASH)
    ensures SegmentEnd(p, i) == e
    decreases e - i
  {
    if i < e {
      SegmentEndIs(p, i + 1, e);
    }
  }

  lemma {:induction false} ParseFromShift(a: Bytes, b: Bytes, start: nat)
    requires start <= |b|
    ensures ParseFrom(a + b, |a| + start) == ParseFrom(b, start)
    decreases |b| - start
  {
    var e := SegmentEnd(b, start);
    SegmentEndIs(a + b, |a| + start, |a| + e);
    UnescapeShift(a, b, start, e);
    if e < |b| {
      ParseFromShift(a, b, e + 1);
    }
  }

  lemma FirstSegment(s: Bytes, rest: Bytes)
    requires rest == [] || rest[0] == SLASH
    ensures var p, e := [SLASH] + EscapeSegment(s) + rest, 1 + |EscapeSegment(s)|;
      SegmentEnd(p, 1) == e && Unescape(p, 1, e) == Some(s)
  {
    hide EscapeSegment, Unescape;
    var first := EscapeSegment(s);
    var p, e := [SLASH] + first + rest, 1 + |first|;
    EscapedHasNoSlash(s);
    SegmentEndIs(p, 1, e);
    UnescapeInvertsEscape(s);
    UnescapeShift([SLASH], first, 0, |first|);
    UnescapeCut(p, [SLASH] + first, 1, e);
  }

  /** Any list of segments, escaped and joined, parses back to itself. */
  lemma {:induction false} ParseInvertsPointerOf(segs: seq<Bytes>)
    ensures Parse(PointerOf(segs)) == Some(segs)
  {
    hide EscapeSegment, Unescape, SegmentEnd;
    if segs != [] {
      var first, rest := [SLASH] + EscapeSegment(segs[0]), PointerOf(segs[1..]);
      ParseInvertsPointerOf(segs[1..]);
      FirstSegment(segs[0], rest);
      var p := PointerOf(segs);
      assert p == first + rest && p[0] == SLASH;
      assert segs == [segs[0]] + segs[1..];
      if rest == [] {
        assert segs[1..] == [] && segs == [segs[0]];
        assert ParseFrom(p, 1) == Some([segs[0]]);
      } else {
        ParseFromShift(first, rest, 1);
        assert Parse(rest) == ParseFrom(rest, 1);
        assert ParseFrom(p, 1) == Prepend([segs[0]], ParseFrom(p, |first| + 1));
      }
    }
  }

  lemma {:induction false} EscapeInvertsUnescape(p: Bytes, i: nat, e: nat)
    requires i <= e <= |p| && Unescape(p, i, e).Some? && forall k :: i <= k < e ==> p[k] != SLASH
    ensures EscapeSegment(Unescape(p, i, e).value) == p[i..e]
    decreases e - i
  {
    if i < e {
      EscapeInvertsUnescape(p, if p[i] == TILDE then i + 2 else i + 1, e);
    }
  }

  lemma {:induction false} PointerOfTail(p: Bytes, start: nat)
    requires start <= |p| && ParseFrom(p, start).Some?
    ensures PointerOf(ParseFrom(p, start).value) == [SLASH] + p[start..]
    decreases |p| - start
  {
    hide EscapeSegment, Unescape, PointerOf;
    var e := SegmentEnd(p, start);
    var s := Unescape(p, start, e).value;
    EscapeInvertsUnescape(p, start, e);
    if e == |p| {
      PointerOfFirst(s, []);
      assert p[start..e] == p[start..] && [s] + [] == [s];
    } else {
      var rest := ParseFrom(p, e + 1).value;
      assert ParseFrom(p, start).value == [s] + rest;
      hide ParseFrom, SegmentEnd;
      PointerOfTail(p, e + 1);
      PointerOfFirst(s, rest);
      SlashBetween(p, start, e);
    }
  }

  lemma SlashBetween(p: Bytes, start: nat, e: nat)
    requires start <= e < |p| && p[e] == SLASH
    ensures [SLASH] + p[start..e] + ([SLASH] + p[e + 1..]) == [SLASH] + p[start..]
  {
    assert p[start..] == p[start..e] + ([SLASH] + p[e + 1..]);
  }

  lemma PointerOfFirst(s: Bytes, rest: seq<Bytes>)
    ensures PointerOf([s] + rest) == [SLASH] + EscapeSegment(s) + PointerOf(rest)
    ensures PointerOf([]) == []
  {
    assert ([s] + rest)[1..] == rest;
    hide EscapeSegment;
  }

  /** A pointer that parses is the spelling of what it parses to: pointers and segment lists correspond. */
  lemma PointerOfInvertsParse(p: Bytes)
    requires Parse(p).Some?
    ensures PointerOf(Parse(p).value) == p
  {
    hide ParseFrom;
    if p != [] {
      PointerOfTail(p, 1);
    }
  }

  // ---------------------------------------------------------------- in literal bytes

  /** Neither `/` nor `~`. */
  predicate PlainText(s: Bytes) {
    forall k :: 0 <= k < |s| ==> s[k] != 0x2F && s[k] != 0x7E
  }

  lemma {:induction false} EscapeJoins(a: Bytes, b: Bytes)
    ensures EscapeSegment(a + b) == EscapeSegment(a) + EscapeSegment(b)
  {
    if a == [] {
      assert a + b == b;
    } else {
      assert (a + b)[1..] == a[1..] + b;
      EscapeJoins(a[1..], b);
    }
  }

  lemma {:induction false} PlainIsItself(s: Bytes)
    requires PlainText(s)
    ensures EscapeSegment(s) == s
  {
    if s != [] {
      PlainIsItself(s[1..]);
      assert s == [s[0]] + s[1..];
    }
  }

  lemma EscapeAround(a: Bytes, c: Byte, b: Bytes)
    requires PlainText(a) && PlainText(b) && (c == 0x2F || c == 0x7E)
    ensures EscapeSegment(a + [c] + b) == a + [0x7E, if c == 0x2F then 0x31 else 0x30] + b
  {
    EscapeJoins(a + [c], b);
    EscapeJoins(a, [c]);
    PlainIsItself(a);
    PlainIsItself(b);
    assert EscapeSegment([c]) == [0x7E, if c == 0x2F then 0x31 else 0x30];
  }

  lemma PointerOfOne(s: Bytes)
    ensures PointerOf([s]) == [0x2F] + EscapeSegment(s)
  {
    assert PointerOf([s][1..]) == [];
    hide EscapeSegment;
  }

  /** `~1` spells a slash and `~0` a tilde; anything else spells itself. */
  lemma EscapesDecoded(a: Bytes, b: Bytes)
    requires PlainText(a) && PlainText(b)
    ensures Parse([0x2F] + a) == Some([a])
    ensures Parse([0x2F] + a + [0x7E, 0x31] + b) == Some([a + [0x2F] + b])
    ensures Parse([0x2F] + a + [0x7E, 0x30] + b) == Some([a + [0x7E] + b])
  {
    PlainIsItself(a);
    EscapeAround(a, 0x2F, b);
    EscapeAround(a, 0x7E, b);
    hide EscapeSegment, Parse, PointerOf;
    PointerOfOne(a);
    ParseInvertsPointerOf([a]);
    PointerOfOne(a + [0x2F] + b);
    ParseInvertsPointerOf([a + [0x2F] + b]);
    assert [0x2F] + (a + [0x7E, 0x31] + b) == [0x2F] + a + [0x7E, 0x31] + b;
    PointerOfOne(a + [0x7E] + b);
    ParseInvertsPointerOf([a + [0x7E] + b]);
    assert [0x2F] + (a + [0x7E, 0x30] + b) == [0x2F] + a + [0x7E, 0x30] + b;
  }

  /** A slash begins the next segment. */
  lemma SlashSeparates(a: Bytes, b: Bytes)
    requires PlainText(a) && PlainText(b)
    ensures Parse([0x2F] + a + [0x2F] + b) == Some([a, b])
  {
    PlainIsItself(a);
    PlainIsItself(b);
    PointerOfOne(b);
    PointerOfFirst(a, [b]);
    assert [a] + [b] == [a, b];
    hide EscapeSegment, Parse, PointerOf;
    assert [0x2F] + a + ([0x2F] + b) == [0x2F] + a + [0x2F] + b;
    ParseInvertsPointerOf([a, b]);
  }

  /** The empty pointer has no segments; one that begins without a slash, or has a bad escape, is no pointer. */
  lemma Malformed(p: Bytes, a: Bytes, b: Bytes)
    requires PlainText(a) && (b == [] || (b[0] != 0x30 && b[0] != 0x31))
    ensures Parse([]) == Some([])
    ensures p != [] && p[0] != 0x2F ==> Parse(p).None?
    ensures Parse([0x2F] + a + [0x7E] + b).None?
  {
    var q := [0x2F] + a + [0x7E] + b;
    ParsesIffEscapesOk(q, 1);
    hide ParseFrom;
    BadEscape(q, 1, 1 + |a|);
  }

  lemma {:induction false} BadEscape(q: Bytes, i: nat, e: nat)
    requires i <= e < |q| && q[e] == 0x7E && (e + 1 < |q| ==> q[e + 1] != 0x30 && q[e + 1] != 0x31)
    requires forall k :: i <= k < e ==> q[k] != 0x7E
    ensures !EscapesOk(q, i)
    decreases e - i
  {
    if i < e {
      BadEscape(q, i + 1, e);
    }
  }

  /** Numerals are written most significant digit first. */
  lemma DecimalInDigits(n: nat)
    ensures n < 10 ==> Decimal(n) == [0x30 + n]
    ensures n >= 10 ==> Decimal(n) == Decimal(n / 10) + [0x30 + n % 10]
  {
  }

  // ---------------------------------------------------------------- the parser

  /** How many segments there are: one more than the slashes after the first. */
  function SlashesFrom(p: Bytes, i: nat): nat
    requires i <= |p|
    decreases |p| - i
  {
    if i == |p| then 0 else (if p[i] == SLASH then 1 else 0) + SlashesFrom(p, i + 1)
  }

  method CountSegments(p: Bytes) returns (count: nat)
    ensures count == if p == [] || p[0] != SLASH then 0 else 1 + SlashesFrom(p, 1)
  {
    if |p| == 0 {
      return 0;
    }
    if p[0] != SLASH {
      return 0;
    }
    count := 0;
    for i := 1 to |p| + 1
      invariant i <= |p| ==> count + SlashesFrom(p, i) == SlashesFrom(p, 1)
      invariant i == |p| + 1 ==> count == 1 + SlashesFrom(p, 1)
    {
      if i == |p| || p[i] == SLASH {
        count := count + 1;
      }
    }
  }

  lemma {:induction false} SlashesSkip(p: Bytes, i: nat, e: nat)
    requires i <= e <= |p| && forall k :: i <= k < e ==> p[k] != SLASH
    ensures SlashesFrom(p, i) == SlashesFrom(p, e)
    decreases e - i
  {
    if i < e {
      SlashesSkip(p, i + 1, e);
    }
  }

  lemma {:induction false} ParsedCount(p: Bytes, start: nat)
    requires start <= |p| && ParseFrom(p, start).Some?
    ensures |ParseFrom(p, start).value| == 1 + SlashesFrom(p, start)
    decreases |p| - start
  {
    hide Unescape;
    var e := SegmentEnd(p, start);
    SlashesSkip(p, start, e);
    if e < |p| {
      ParsedCount(p, e + 1);
    }
  }

  /** Where a parsed segment lies in the shared storage. */
  datatype Seg = Seg(at: nat, len: nat)

  /** The first `n` entries of `segs` describe, in `storage`, the segments of `done`. */
  ghost predicate Describes(segs: array<Seg>, storage: array<Byte>, used: nat, done: seq<Bytes>)
    reads segs, storage
  {
    && |done| <= segs.Length && used <= storage.Length
    && forall k :: 0 <= k < |done| ==>
         segs[k].at + segs[k].len <= used && storage[segs[k].at..segs[k].at + segs[k].len] == done[k]
  }

  /** Unescapes `p[start..e]` into the storage, which the bytes already read leave room for. */
  method FillSegment(p: Bytes, start: nat, e: nat, storage: array<Byte>, used: nat) returns (ok: bool, used': nat)
    requires start <= e <= |p| && used + (e - start) <= storage.Length
    modifies storage
    ensures used <= used' <= used + (e - start)
    ensures ok <==> Unescape(p, start, e).Some?
    ensures ok ==> storage[used..used'] == Unescape(p, start, e).value
    ensures forall k :: 0 <= k < used ==> storage[k] == old(storage[k])
  {
    used' := used;
    var j := start;
    PrependTwice([], [], Unescape(p, start, e));
    assert storage[used..used'] == [];
    while j < e
      invariant start <= j <= e && used <= used' <= used + (j - start)
      invariant Unescape(p, start, e) == Prepend(storage[used..used'], Unescape(p, j, e))
      invariant forall k :: 0 <= k < used ==> storage[k] == old(storage[k])
    {
      ghost var before, at := storage[used..used'], j;
      if p[j] == TILDE {
        if j + 1 >= e {
          return false, used';
        }
        var next := p[j + 1];
        if next != DIGIT_0 && next != DIGIT_1 {
          return false, used';
        }
        storage[used'] := if next == DIGIT_0 then TILDE else SLASH;
        j := j + 2;
      } else {
        storage[used'] := p[j];
        j := j + 1;
      }
      used' := used' + 1;
      assert storage[used..used'] == before + [storage[used' - 1]];
      PrependTwice(before, [storage[used' - 1]], Unescape(p, j, e));
      assert Unescape(p, at, e) == Prepend([storage[used' - 1]], Unescape(p, j, e));
    }
    assert Unescape(p, e, e) == Some([]);
    assert storage[used..used'] + [] == storage[used..used'];
    return true, used';
  }

  /** One segment unescaped and entered in the table; the earlier entries still describe what they did. */
  method RecordSegment(p: Bytes, start: nat, e: nat, segs: array<Seg>, si: nat, storage: array<Byte>, used: nat,
                       ghost done: seq<Bytes>)
    returns (ok: bool, used': nat)
    requires start <= e <= |p| && used + (e - start) <= storage.Length
    requires si == |done| < segs.Length && Describes(segs, storage, used, done)
    modifies segs, storage
    ensures used <= used' <= used + (e - start)
    ensures ok <==> Unescape(p, start, e).Some?
    ensures ok ==> Describes(segs, storage, used', done + [Unescape(p, start, e).value])
  {
    hide Unescape;
    ok, used' := FillSegment(p, start, e, storage, used);
    if ok {
      segs[si] := Seg(used, used' - used);
      forall k | 0 <= k < |done|
        ensures storage[segs[k].at..segs[k].at + segs[k].len] == done[k]
      {
        assert segs[k] == old(segs[k]);
        assert storage[segs[k].at..segs[k].at + segs[k].len] == old(storage[segs[k].at..segs[k].at + segs[k].len]);
      }
    }
  }

  /**
   * Splits and unescapes the whole pointer into one storage buffer of the pointer's own length, which it
   * never overruns. It accepts exactly the pointers that parse, and fills exactly the counted segments.
   */
  method FillSegments(p: Bytes, segs: array<Seg>, storage: array<Byte>) returns (ok: bool)
    requires p != [] && p[0] == SLASH && segs.Length == 1 + SlashesFrom(p, 1) && storage.Length == |p|
    modifies segs, storage
    ensures ok <==> Parse(p).Some?
    ensures ok ==> |Parse(p).value| == segs.Length && Describes(segs, storage, storage.Length, Parse(p).value)
  {
    hide ParseFrom, Unescape;
    var si, start, used: nat := 0, 1, 0;
    ghost var done: seq<Bytes> := [];
    PrependTwice([], [], ParseFrom(p, 1));
    while start <= |p|
      invariant 1 <= start <= |p| + 1
      invariant used < start
      invariant si == |done| && Describes(segs, storage, used, done)
      invariant start <= |p| ==> Parse(p) == Prepend(done, ParseFrom(p, start))
      invariant start <= |p| ==> si + 1 + SlashesFrom(p, start) == segs.Length
      invariant start > |p| ==> Parse(p) == Some(done) && si == segs.Length
    {
      var i := start;
      while i < |p| && p[i] != SLASH
        invariant start <= i <= |p|
        invariant forall k :: start <= k < i ==> p[k] != SLASH
      {
        i := i + 1;
      }
      SegmentEndIs(p, start, i);
      SlashesSkip(p, start, i);
      ParseStep(p, start);
      var filled, used' := RecordSegment(p, start, i, segs, si, storage, used, done);
      if !filled {
        return false;
      }
      ghost var s := Unescape(p, start, i).value;
      PrependTwice(done, [s], if i < |p| then ParseFrom(p, i + 1) else None);
      done := done + [s];
      si, start, used := si + 1, i + 1, used';
    }
    return true;
  }

  lemma ParseStep(p: Bytes, start: nat)
    requires start <= |p|
    ensures var e := SegmentEnd(p, start);
      ParseFrom(p, start) == match Unescape(p, start, e)
        case None => None
        case Some(s) => if e == |p| then Some([s]) else Prepend([s], ParseFrom(p, e + 1))
  {
  }

  /** Every `~` from position `i` on is followed by `0` or `1`. */
  predicate EscapesOk(p: Bytes, i: nat)
    decreases |p| - i
  {
    i >= |p|
    || if p[i] == TILDE then i + 1 < |p| && (p[i + 1] == DIGIT_0 || p[i + 1] == DIGIT_1) && EscapesOk(p, i + 2)
       else EscapesOk(p, i + 1)
  }

  lemma {:induction false} UnescapableIffEscapesOk(p: Bytes, i: nat, e: nat)
    requires i <= e <= |p| && (e < |p| ==> p[e] == SLASH)
    ensures EscapesOk(p, i) <==> Unescape(p, i, e).Some? && EscapesOk(p, e)
    decreases e - i
  {
    if i < e {
      if p[i] != TILDE {
        UnescapableIffEscapesOk(p, i + 1, e);
      } else if i + 1 < e {
        UnescapableIffEscapesOk(p, i + 2, e);
      }
    }
  }

  /** The syntax test of the limit gate is the parser's own. */
  lemma {:induction false} ParsesIffEscapesOk(p: Bytes, start: nat)
    requires start <= |p|
    ensures ParseFrom(p, start).Some? <==> EscapesOk(p, start)
    decreases |p| - start
  {
    var e := SegmentEnd(p, start);
    UnescapableIffEscapesOk(p, start, e);
    hide Unescape;
    if e < |p| {
      ParsesIffEscapesOk(p, e + 1);
    }
  }

  method PrescanEscapes(p: Bytes) returns (ok: bool)
    requires p != [] && p[0] == SLASH
    ensures ok <==> Parse(p).Some?
  {
    ParsesIffEscapesOk(p, 1);
    var i := 1;
    while i < |p|
      invariant i >= 1 && EscapesOk(p, 1) == EscapesOk(p, i)
    {
      if p[i] == TILDE {
        i := i + 1;
        if i == |p| || (p[i] != DIGIT_0 && p[i] != DIGIT_1) {
          return false;
        }
      }
      i := i + 1;
    }
    return true;
  }

  /** Too many segments for the absolute cap, or for the depth limit when there is one. */
  predicate OverLimit(n: nat, depthLimit: nat, maxSegments: nat) {
    n > maxSegments || (depthLimit > 0 && n >= depthLimit)
  }

  /**
   * The parser with its segment gate. A syntax error outranks the gate, and the gate allocates nothing.
   */
  method PointerParse(p: Bytes, depthLimit: nat, maxSegments: nat)
    returns (ok: bool, status: SpliceStatus, plan: seq<Bytes>)
    ensures Parse(p).None? ==> !ok && status == SettableFail
    ensures Parse(p).Some? ==>
      var n := |Parse(p).value|;
      if p != [] && (n > maxSegments || (depthLimit > 0 && n >= depthLimit)) then !ok && status == DepthFail
      else ok && plan == Parse(p).value
  {
    hide ParseFrom, EscapesOk;
    status, plan := SettableFail, [];
    if |p| == 0 {
      return true, status, [];
    }
    if p[0] != SLASH {
      return false, status, [];
    }
    var nsegs := CountSegments(p);
    if Parse(p).Some? {
      ParsedCount(p, 1);
    }
    if OverLimit(nsegs, depthLimit, maxSegments) {
      status := DepthFail;
      var syntax := PrescanEscapes(p);
      if !syntax {
        status := SettableFail;
      }
      return false, status, [];
    }
    var segs := new Seg[nsegs](_ => Seg(0, 0));
    var storage := new Byte[|p|](_ => 0);
    ok := FillSegments(p, segs, storage);
    if !ok {
      return;
    }
    for k := 0 to nsegs
      invariant plan == Parse(p).value[..k]
    {
      plan := plan + [storage[segs[k].at..segs[k].at + segs[k].len]];
    }
  }

  // ---------------------------------------------------------------- array indices

  predicate Digit(c: Byte) {
    DIGIT_0 <= c <= DIGIT_9
  }

  /** The decimal numeral of a number. */
  function Decimal(n: nat): (r: Bytes)
    ensures |r| >= 1
  {
    if n < 10 then [DIGIT_0 + n] else Decimal(n / 10) + [DIGIT_0 + n % 10]
  }

  function NumeralValue(s: Bytes): nat
    requires forall k :: 0 <= k < |s| ==> Digit(s[k])
  {
    if s == [] then 0
    else
      assert Digit(s[|s| - 1]);
      NumeralValue(s[..|s| - 1]) * 10 + (s[|s| - 1] - DIGIT_0)
  }

  /** The index a segment stands for: a decimal numeral without leading zeros, short and small enough. */
  function IndexOf(s: Bytes, sizeMax: nat): Option<nat> {
    if 1 <= |s| <= 19 && (forall k :: 0 <= k < |s| ==> Digit(s[k])) && (s[0] == DIGIT_0 ==> |s| == 1)
       && NumeralValue(s) <= sizeMax
    then Some(NumeralValue(s))
    else None
  }

  lemma {:induction false} DecimalIsNumeral(n: nat)
    ensures forall k :: 0 <= k < |Decimal(n)| ==> Digit(Decimal(n)[k])
    ensures NumeralValue(Decimal(n)) == n
    ensures Decimal(n)[0] == DIGIT_0 <==> n == 0
    ensures n == 0 ==> |Decimal(n)| == 1
  {
    if n >= 10 {
      DecimalIsNumeral(n / 10);
      assert Decimal(n)[..|Decimal(n)| - 1] == Decimal(n / 10);
    } else {
      assert Decimal(n)[..0] == [];
    }
  }

  lemma {:induction false} NumeralIsDecimal(s: Bytes)
    requires s != [] && (forall k :: 0 <= k < |s| ==> Digit(s[k])) && (s[0] == DIGIT_0 ==> |s| == 1)
    ensures Decimal(NumeralValue(s)) == s
    ensures NumeralValue(s) == 0 ==> s[0] == DIGIT_0
  {
    var front, last := s[..|s| - 1], s[|s| - 1];
    assert s == front + [last];
    if front != [] {
      NumeralIsDecimal(front);
      var n := NumeralValue(front);
      assert n > 0;
      assert (n * 10 + (last - DIGIT_0)) / 10 == n;
    }
  }

  /** Index segments are exactly the canonical numerals, so distinct segments name distinct elements. */
  lemma IndexIffDecimal(s: Bytes, n: nat, sizeMax: nat)
    ensures IndexOf(s, sizeMax) == Some(n) <==> s == Decimal(n) && |s| <= 19 && n <= sizeMax
  {
    DecimalIsNumeral(n);
    if IndexOf(s, sizeMax) == Some(n) {
      NumeralIsDecimal(s);
    }
  }

  /** The index reader: at most nineteen digits, and never past the largest size. */
  method SegIsIndex(s: Bytes, sizeMax: nat) returns (ok: bool, index: nat)
    ensures ok <==> IndexOf(s, sizeMax).Some?
    ensures ok ==> index == IndexOf(s, sizeMax).value
  {
    index := 0;
    if |s| == 0 || |s| > 19 {
      return false, 0;
    }
    if s[0] == DIGIT_0 {
      if |s| > 1 {
        return false, 0;
      }
      assert forall k :: 0 <= k < |s| ==> Digit(s[k]);
      assert s[..0] == [] && NumeralValue(s) == NumeralValue(s[..0]) * 10 + 0;
      assert IndexOf(s, sizeMax) == Some(0);
      return true, 0;
    }
    assert s[..0] == [];
    for i := 0 to |s|
      invariant forall k :: 0 <= k < i ==> Digit(s[k])
      invariant index == NumeralValue(s[..i]) <= sizeMax
    {
      var c := s[i];
      if !Digit(c) {
        return false, 0;
      }
      var digit: int := c - DIGIT_0;
      NumeralGrows(s, i + 1);
      assert s[..i + 1][..i] == s[..i] && NumeralValue(s[..i + 1]) == index * 10 + digit;
      if index > (sizeMax - digit) / 10 {
        assert index * 10 + digit > sizeMax;
        return false, 0;
      }
      index := index * 10 + digit;
    }
    assert s[..|s|] == s;
    return true, index;
  }

  /** A longer numeral is never smaller. */
  lemma {:induction false} NumeralGrows(s: Bytes, n: nat)
    requires n <= |s|
    requires forall k :: 0 <= k < n ==> Digit(s[k])
    ensures (forall k :: 0 <= k < |s| ==> Digit(s[k])) ==> NumeralValue(s) >= NumeralValue(s[..n])
  {
    if n == |s| {
      assert s[..n] == s;
    } else {
      NumeralGrows(s[..|s| - 1], n);
      assert s[..|s| - 1][..n] == s[..n];
    }
  }
}
