/**
 * The JSON_HEX_* flags: a second pass over an encoded string, run backwards in place, that turns `<`, `>`,
 * `&`, `'` and `\"` into `\uXXXX`. Its result is what an escaper that knew the flags would have written.
 */
module HexEscapes {
  import opened ByteStrings
  import opened Utf8
  import opened Escape
  import opened SmartStr
  import opened Wrappers

  // ---------------------------------------------------------------- token-wise specification

  /** The bytes that follow the backslash of a two-byte escape. */
  predicate ShortLetter(c: int) {
    c == QUOTE || c == BACKSLASH || c == SLASH || c == 0x62 || c == 0x66 || c == 0x6E || c == 0x72 || c == 0x74
  }

  predicate HexLetter(c: int) {
    HexValue(c) >= 0
  }

  function TokenLen(b: Bytes): (n: nat)
    requires b != []
    ensures n >= 1
  {
    if b[0] != BACKSLASH then 1 else if At(b, 1) == LOWER_U then 6 else 2
  }

  /** One character of an encoded string: a byte other than `"` and `\`, or an escape. */
  predicate TokenOk(b: Bytes)
    requires b != []
  {
    && TokenLen(b) <= |b|
    && if b[0] != BACKSLASH then b[0] != QUOTE
       else if b[1] == LOWER_U then HexLetter(b[2]) && HexLetter(b[3]) && HexLetter(b[4]) && HexLetter(b[5])
       else ShortLetter(b[1])
  }

  /** What lies between the quotes of an encoded string. */
  predicate IsBody(b: Bytes) {
    b == [] || (TokenOk(b) && IsBody(b[TokenLen(b)..]))
  }

  /** What the flags make of one character. */
  function RewriteToken(b: Bytes, h: HexFlags): Bytes
    requires b != [] && TokenOk(b)
  {
    if b[0] != BACKSLASH then
      (if HexEscape(b[0] as int, h) != [] then HexEscape(b[0], h) else [b[0]])
    else if h.quot && b[1] == QUOTE then HexEscape(QUOTE, h)
    else b[..TokenLen(b)]
  }

  function RewriteBody(b: Bytes, h: HexFlags): Bytes
    requires IsBody(b)
  {
    if b == [] then [] else RewriteToken(b, h) + RewriteBody(b[TokenLen(b)..], h)
  }

  lemma PrependToken(e: Bytes, rest: Bytes, h: HexFlags)
    requires e != [] && TokenOk(e + rest) && TokenLen(e + rest) == |e| && IsBody(rest)
    ensures IsBody(e + rest)
    ensures RewriteBody(e + rest, h) == RewriteToken(e + rest, h) + RewriteBody(rest, h)
  {
    hide TokenOk, TokenLen, RewriteToken;
    assert (e + rest)[|e|..] == rest;
  }

  lemma HexLetters(unit: nat)
    requires unit < 0x10000
    ensures forall k :: 2 <= k < 6 ==> HexLetter(UnicodeEscape(unit)[k])
  {
  }

  lemma UnitToken(unit: nat, rest: Bytes, h: HexFlags)
    requires unit < 0x10000 && IsBody(rest)
    ensures IsBody(UnicodeEscape(unit) + rest)
    ensures RewriteBody(UnicodeEscape(unit) + rest, h) == UnicodeEscape(unit) + RewriteBody(rest, h)
  {
    var e := UnicodeEscape(unit);
    HexLetters(unit);
    assert e[0] == BACKSLASH && e[1] == LOWER_U;
    hide UnicodeEscape, HexLetter;
    assert TokenOk(e + rest) && (e + rest)[..6] == e;
    PrependToken(e, rest, h);
  }

  lemma ShortToken(c: Byte, rest: Bytes, h: HexFlags)
    requires ShortLetter(c) && IsBody(rest)
    ensures IsBody([BACKSLASH, c] + rest)
    ensures RewriteBody([BACKSLASH, c] + rest, h)
         == (if h.quot && c == QUOTE then HexEscape(QUOTE, h) else [BACKSLASH, c]) + RewriteBody(rest, h)
  {
    assert ([BACKSLASH, c] + rest)[..2] == [BACKSLASH, c];
    PrependToken([BACKSLASH, c], rest, h);
  }

  lemma ByteToken(c: Byte, rest: Bytes, h: HexFlags)
    requires c != BACKSLASH && c != QUOTE && IsBody(rest)
    ensures IsBody([c] + rest)
    ensures RewriteBody([c] + rest, h)
         == (if HexEscape(c, h) != [] then HexEscape(c, h) else [c]) + RewriteBody(rest, h)
  {
    PrependToken([c], rest, h);
  }

  lemma {:induction false} HighBytes(bs: Bytes, rest: Bytes, h: HexFlags)
    requires (forall k :: 0 <= k < |bs| ==> bs[k] >= 0x80) && IsBody(rest)
    ensures IsBody(bs + rest) && RewriteBody(bs + rest, h) == bs + RewriteBody(rest, h)
  {
    hide IsBody, RewriteBody;
    if bs == [] {
      assert bs + rest == rest && bs + RewriteBody(rest, h) == RewriteBody(rest, h);
    } else {
      HighBytes(bs[1..], rest, h);
      ByteToken(bs[0], bs[1..] + rest, h);
      assert [bs[0]] + (bs[1..] + rest) == bs + rest;
      assert [bs[0]] + (bs[1..] + RewriteBody(rest, h)) == bs + RewriteBody(rest, h);
    }
  }

  /** Rewriting one escaped character gives the character escaped under the flags. */
  lemma RewriteEscaped(cp: Scalar, f: WriteFlags, h: HexFlags, rest: Bytes)
    requires IsBody(rest)
    ensures IsBody(EscapeScalar(cp, f, NO_HEX) + rest)
    ensures RewriteBody(EscapeScalar(cp, f, NO_HEX) + rest, h) == EscapeScalar(cp, f, h) + RewriteBody(rest, h)
  {
    hide IsBody, RewriteBody, UnicodeEscape;
    if ShortEscape(cp, f) >= 0 {
      ShortToken(ShortEscape(cp, f), rest, h);
    } else if cp < 0x20 {
      UnitToken(cp, rest, h);
    } else if cp < 0x80 {
      ByteToken(cp, rest, h);
    } else if !f.escapeUnicode {
      HighScalarIsHighBytes(cp);
      HighBytes(Encode(cp), rest, h);
    } else if cp < 0x10000 {
      UnitToken(cp, rest, h);
    } else {
      var hi, lo := 0xD800 + (cp - 0x10000) / 1024, 0xDC00 + (cp - 0x10000) % 1024;
      UnitToken(lo, rest, h);
      UnitToken(hi, UnicodeEscape(lo) + rest, h);
      ConcatAssociates(UnicodeEscape(hi), UnicodeEscape(lo), rest);
      ConcatAssociates(UnicodeEscape(hi), UnicodeEscape(lo), RewriteBody(rest, h));
    }
  }

  /** The rewrite of an encoded string is the string encoded under the flags. */
  lemma {:induction false} RewriteOfBody(s: Bytes, f: WriteFlags, h: HexFlags)
    ensures IsBody(Body(s, f, NO_HEX)) && RewriteBody(Body(s, f, NO_HEX), h) == Body(s, f, h)
  {
    if s != [] && ValidAt(s, 0) {
      ValidFits(s, 0);
      RewriteOfBody(s[SeqLen(s[0])..], f, h);
      hide ValidAt, EscapeScalar, DecodeHead;
      RewriteEscaped(DecodeHead(s), f, h, Body(s[SeqLen(s[0])..], f, NO_HEX));
    }
  }

  /** An encoded string, quotes included; the empty region is left alone too. */
  predicate Encoded(t: Bytes) {
    t == [] || (|t| >= 2 && t[0] == QUOTE && t[|t| - 1] == QUOTE && IsBody(t[1..|t| - 1]))
  }

  function HexRewrite(t: Bytes, h: HexFlags): Bytes
    requires Encoded(t)
  {
    if t == [] then [] else [QUOTE] + RewriteBody(t[1..|t| - 1], h) + [QUOTE]
  }

  /** Writing a string and then rewriting it is writing it under the flags. */
  lemma RewriteOfQuoted(s: Bytes, f: WriteFlags, h: HexFlags)
    ensures Encoded(Quoted(s, f, NO_HEX))
    ensures HexRewrite(Quoted(s, f, NO_HEX), h) == Quoted(s, f, h)
  {
    var t := Quoted(s, f, NO_HEX);
    assert t[1..|t| - 1] == Body(s, f, NO_HEX);
    RewriteOfBody(s, f, h);
  }

  // ---------------------------------------------------------------- what is left in the text

  predicate Asked(c: Byte, h: HexFlags) {
    (h.tag && (c == LESS_THAN || c == GREATER_THAN)) || (h.amp && c == AMPERSAND) || (h.apos && c == APOSTROPHE)
  }

  /** No byte the flags ask about is left, and no escaped quote either. */
  predicate Scrubbed(t: Bytes, h: HexFlags) {
    && (forall k :: 0 <= k < |t| ==> !Asked(t[k], h))
    && (h.quot ==> forall k :: 0 <= k < |t| ==> t[k] != QUOTE)
  }

  lemma TokenScrubbed(b: Bytes, h: HexFlags)
    requires b != [] && TokenOk(b)
    ensures Scrubbed(RewriteToken(b, h), h)
  {
  }

  lemma {:induction false} BodyScrubbed(b: Bytes, h: HexFlags)
    requires IsBody(b)
    ensures Scrubbed(RewriteBody(b, h), h)
  {
    if b != [] {
      TokenScrubbed(b, h);
      BodyScrubbed(b[TokenLen(b)..], h);
      hide TokenOk, TokenLen, RewriteToken;
    }
  }

  /**
   * After the rewrite none of the requested `<`, `>`, `&`, `'` or `\"` remains between the quotes, and the
   * string still denotes what it denoted.
   */
  lemma RewrittenIsScrubbedAndEquivalent(s: Bytes, f: WriteFlags, h: HexFlags)
    requires WellFormed(s)
    ensures Encoded(Quoted(s, f, NO_HEX))
    ensures var t := HexRewrite(Quoted(s, f, NO_HEX), h); |t| >= 2 && Scrubbed(t[1..|t| - 1], h)
    ensures ReadQuoted(HexRewrite(Quoted(s, f, NO_HEX), h)) == ReadQuoted(Quoted(s, f, NO_HEX)) == Some(s)
  {
    var q := Quoted(s, f, NO_HEX);
    RewriteOfQuoted(s, f, h);
    QuotedReadsBack(s, f, h);
    QuotedReadsBack(s, f, NO_HEX);
    assert q[1..|q| - 1] == Body(s, f, NO_HEX);
    BodyScrubbed(Body(s, f, NO_HEX), h);
    var t := HexRewrite(q, h);
    assert t[1..|t| - 1] == RewriteBody(Body(s, f, NO_HEX), h);
  }

  // ---------------------------------------------------------------- byte-wise view of the rewrite

  /** A backslash that goes with the quote after it. */
  predicate Swallowed(t: Bytes, p: nat, h: HexFlags)
  {
    h.quot && p + 2 < |t| && t[p] == BACKSLASH && t[p + 1] == QUOTE
  }

  /** What the byte at `p` alone becomes, told from its neighbours: the backward pass's own test. */
  function Rep(t: Bytes, p: nat, h: HexFlags): (r: Bytes)
    requires p < |t|
    ensures Swallowed(t, p, h) ==> r == []
    ensures !Swallowed(t, p, h) ==> |r| >= 1
  {
    if h.quot && t[p] == QUOTE && 0 < p && p + 1 < |t| && t[p - 1] == BACKSLASH then HexEscape(QUOTE, h)
    else if Swallowed(t, p, h) then []
    else if t[p] != QUOTE && HexEscape(t[p], h) != [] then HexEscape(t[p], h)
    else [t[p]]
  }

  function RewriteFrom(t: Bytes, r: nat, h: HexFlags): Bytes
    requires r <= |t|
    decreases |t| - r
  {
    if r == |t| then [] else Rep(t, r, h) + RewriteFrom(t, r + 1, h)
  }

  lemma PairLocally(t: Bytes, i: nat, h: HexFlags)
    requires i + 2 < |t| && t[i] == BACKSLASH && ShortLetter(t[i + 1])
    requires i + 2 == |t| - 1 || t[i + 2] != QUOTE
    ensures Rep(t, i, h) + Rep(t, i + 1, h)
         == if h.quot && t[i + 1] == QUOTE then HexEscape(QUOTE, h) else [t[i], t[i + 1]]
  {
  }

  lemma RewriteFromTwice(t: Bytes, i: nat, h: HexFlags)
    requires i + 2 <= |t|
    ensures RewriteFrom(t, i, h) == (Rep(t, i, h) + Rep(t, i + 1, h)) + RewriteFrom(t, i + 2, h)
  {
    hide Rep;
    assert RewriteFrom(t, i, h) == Rep(t, i, h) + (Rep(t, i + 1, h) + RewriteFrom(t, i + 2, h));
  }

  lemma TokenFollows(b: Bytes)
    requires b != [] && IsBody(b)
    ensures TokenOk(b) && (TokenLen(b) < |b| ==> b[TokenLen(b)] != QUOTE)
  {
    var rest := b[TokenLen(b)..];
    assert IsBody(rest) && (rest != [] ==> rest[0] == b[TokenLen(b)]);
  }

  lemma RewriteFromToken(t: Bytes, i: nat, h: HexFlags)
    requires 1 <= i < |t| - 1 && t[|t| - 1] == QUOTE && IsBody(t[i..|t| - 1])
    ensures i + TokenLen(t[i..|t| - 1]) <= |t| - 1
    ensures RewriteFrom(t, i, h)
         == RewriteToken(t[i..|t| - 1], h) + RewriteFrom(t, i + TokenLen(t[i..|t| - 1]), h)
  {
    hide IsBody, HexEscape, RewriteFrom, Rep, HexLetter;
    var b := t[i..|t| - 1];
    TokenFollows(b);
    if b[0] != BACKSLASH {
      SingleLocally(t, i, h);
      RewriteFromOnce(t, i, h);
    } else if b[1] == LOWER_U {
      UnitUntouched(t, i, h);
      assert b[..6] == t[i..i + 6];
    } else {
      PairLocally(t, i, h);
      RewriteFromTwice(t, i, h);
      assert b[..2] == [t[i], t[i + 1]];
    }
  }

  lemma SingleLocally(t: Bytes, i: nat, h: HexFlags)
    requires i < |t| && t[i] != BACKSLASH && t[i] != QUOTE
    ensures Rep(t, i, h) == if HexEscape(t[i], h) != [] then HexEscape(t[i], h) else [t[i]]
  {
  }

  lemma RewriteFromOnce(t: Bytes, i: nat, h: HexFlags)
    requires i < |t|
    ensures RewriteFrom(t, i, h) == Rep(t, i, h) + RewriteFrom(t, i + 1, h)
  {
    hide Rep;
  }

  lemma UnitUntouched(t: Bytes, i: nat, h: HexFlags)
    requires i + 6 < |t| && t[i] == BACKSLASH && t[i + 1] == LOWER_U
    requires forall k :: i + 2 <= k < i + 6 ==> HexLetter(t[k])
    ensures RewriteFrom(t, i, h) == t[i..i + 6] + RewriteFrom(t, i + 6, h)
  {
    forall k | i <= k < i + 6 ensures Rep(t, k, h) == [t[k]] {
    }
    hide *;
    RunUntouched(t, i, i + 6, h);
  }

  /** Bytes that each stay as they are stay as they are together. */
  lemma {:induction false} RunUntouched(t: Bytes, i: nat, j: nat, h: HexFlags)
    requires i <= j <= |t| && forall k :: i <= k < j ==> Rep(t, k, h) == [t[k]]
    ensures RewriteFrom(t, i, h) == t[i..j] + RewriteFrom(t, j, h)
    decreases j - i
  {
    hide *;
    if i == j {
      assert t[i..j] == [];
    } else {
      RewriteFromOnce(t, i, h);
      RunUntouched(t, i + 1, j, h);
      assert t[i..j] == [t[i]] + t[i + 1..j];
      ConcatAssociates([t[i]], t[i + 1..j], RewriteFrom(t, j, h));
    }
  }

  /** The local view adds up to the token-wise rewrite. */
  lemma {:induction false} RewriteFromIsBodyRewrite(t: Bytes, i: nat, h: HexFlags)
    requires 1 <= i < |t| && t[|t| - 1] == QUOTE && IsBody(t[i..|t| - 1])
    ensures RewriteFrom(t, i, h) == RewriteBody(t[i..|t| - 1], h) + [QUOTE]
    decreases |t| - i
  {
    hide TokenOk, TokenLen, RewriteToken, HexEscape;
    if i == |t| - 1 {
      assert RewriteFrom(t, i, h) == Rep(t, i, h) + [];
    } else {
      hide Rep, RewriteFrom;
      var b := t[i..|t| - 1];
      var n := TokenLen(b);
      RewriteFromToken(t, i, h);
      assert b[n..] == t[i + n..|t| - 1];
      RewriteFromIsBodyRewrite(t, i + n, h);
      ConcatAssociates(RewriteToken(b, h), RewriteBody(b[n..], h), [QUOTE]);
    }
  }

  lemma RewriteFromStart(t: Bytes, h: HexFlags)
    requires Encoded(t) && t != []
    ensures RewriteFrom(t, 0, h) == HexRewrite(t, h)
  {
    RewriteFromIsBodyRewrite(t, 1, h);
    assert Rep(t, 0, h) == [QUOTE];
    hide IsBody, RewriteBody, Rep;
    ConcatAssociates([QUOTE], RewriteBody(t[1..|t| - 1], h), [QUOTE]);
  }

  /** How many bytes the first `r` bytes become. */
  function WrittenBefore(t: Bytes, r: nat, h: HexFlags): nat
    requires r <= |t|
  {
    if r == 0 then 0 else WrittenBefore(t, r - 1, h) + |Rep(t, r - 1, h)|
  }

  lemma {:induction false} WrittenTotal(t: Bytes, r: nat, h: HexFlags)
    requires r <= |t|
    ensures WrittenBefore(t, r, h) + |RewriteFrom(t, r, h)| == |RewriteFrom(t, 0, h)|
  {
    hide Rep;
    if r > 0 {
      WrittenTotal(t, r - 1, h);
    }
  }

  /** Where the cursor splits a backslash from its quote one byte is owed; elsewhere nothing shrinks. */
  lemma {:induction false} NeverShrinks(t: Bytes, r: nat, h: HexFlags)
    requires r <= |t|
    ensures WrittenBefore(t, r, h) >= r - if r > 0 && Swallowed(t, r - 1, h) then 1 else 0
  {
    if r > 0 {
      NeverShrinks(t, r - 1, h);
    }
  }

  // ---------------------------------------------------------------- the two passes

  lemma {:induction false} BodyGrows(b: Bytes, h: HexFlags)
    requires IsBody(b)
    ensures |RewriteBody(b, h)| >= |b|
  {
    if b != [] {
      BodyGrows(b[TokenLen(b)..], h);
    }
  }

  /** One turn of the forward pass: how far it moves and what it counts. */
  function ForwardStep(src: Bytes, i: nat, h: HexFlags): (r: (nat, nat))
    requires i < |src|
  {
    if src[i] == BACKSLASH && i + 1 < |src| then
      if h.quot && src[i + 1] == QUOTE then (2, 4)
      else if src[i + 1] == LOWER_U && i + 5 < |src| then (6, 0)
      else (2, 0)
    else (1, if Asked(src[i], h) then 5 else 0)
  }

  /** Inside an encoded string the forward pass moves token by token and counts each token's growth. */
  lemma ForwardToken(src: Bytes, i: nat, h: HexFlags)
    requires 1 <= i < |src| - 1 && IsBody(src[i..|src| - 1])
    ensures var last, step := |src| - 1, ForwardStep(src, i, h);
      && i + step.0 <= last
      && IsBody(src[i + step.0..last])
      && |RewriteBody(src[i..last], h)| - (last - i)
         == step.1 + |RewriteBody(src[i + step.0..last], h)| - (last - i - step.0)
  {
    var last := |src| - 1;
    var b := src[i..last];
    assert b[TokenLen(b)..] == src[i + TokenLen(b)..last];
    ForwardStepIsToken(src, i, h);
    hide TokenOk, TokenLen, RewriteToken, ForwardStep;
  }

  lemma ForwardStepIsToken(src: Bytes, i: nat, h: HexFlags)
    requires 1 <= i < |src| - 1 && TokenOk(src[i..|src| - 1])
    ensures ForwardStep(src, i, h).0 == TokenLen(src[i..|src| - 1])
    ensures |RewriteToken(src[i..|src| - 1], h)| == TokenLen(src[i..|src| - 1]) + ForwardStep(src, i, h).1
  {
    hide HexLetter;
  }

  /** What the forward pass, at position `i`, still has to count. */
  ghost function Remaining(src: Bytes, i: nat, h: HexFlags): int
    requires Encoded(src) && i <= |src|
    requires 1 <= i < |src| ==> IsBody(src[i..|src| - 1])
  {
    if i == 0 then |HexRewrite(src, h)| - |src|
    else if i < |src| then |RewriteBody(src[i..|src| - 1], h)| - (|src| - 1 - i)
    else 0
  }

  lemma ForwardTurn(src: Bytes, i: nat, h: HexFlags)
    requires Encoded(src) && i < |src|
    requires i >= 1 ==> IsBody(src[i..|src| - 1])
    ensures var step := ForwardStep(src, i, h);
      && i + step.0 <= |src|
      && (i + step.0 < |src| ==> IsBody(src[i + step.0..|src| - 1]))
      && Remaining(src, i, h) == step.1 + Remaining(src, i + step.0, h)
      && Remaining(src, i + step.0, h) >= 0
  {
    var step := ForwardStep(src, i, h);
    if i == 0 {
      BodyGrows(src[1..|src| - 1], h);
    } else if i < |src| - 1 {
      ForwardToken(src, i, h);
      BodyGrows(src[i + step.0..|src| - 1], h);
    }
  }

  /** The forward pass counts by how much the rewrite grows, or stops when that cannot fit. */
  method CountGrowth(src: Bytes, h: HexFlags, maxLen: nat) returns (ok: bool, growth: nat)
    requires Encoded(src)
    ensures |HexRewrite(src, h)| >= |src|
    ensures ok ==> growth == |HexRewrite(src, h)| - |src|
    ensures !ok ==> |HexRewrite(src, h)| - |src| > maxLen
  {
    hide IsBody, RewriteBody, HexRewrite, Encoded;
    growth := 0;
    var i := 0;
    EmptyRewrite(h);
    while i < |src|
      invariant i <= |src|
      invariant 1 <= i < |src| ==> IsBody(src[i..|src| - 1])
      invariant growth + Remaining(src, i, h) == |HexRewrite(src, h)| - |src|
      invariant Remaining(src, i, h) >= 0 || i == 0
    {
      ForwardTurn(src, i, h);
      var c := src[i];
      if c == BACKSLASH && i + 1 < |src| {
        var next := src[i + 1];
        if h.quot && next == QUOTE {
          if growth + 4 > maxLen {
            return false, growth;
          }
          growth := growth + 4;
          i := i + 2;
          continue;
        }
        i := i + if next == LOWER_U && i + 5 < |src| then 6 else 2;
        continue;
      }
      if (h.tag && (c == LESS_THAN || c == GREATER_THAN)) || (h.amp && c == AMPERSAND) || (h.apos && c == APOSTROPHE) {
        if growth + 5 > maxLen {
          return false, growth;
        }
        growth := growth + 5;
      }
      i := i + 1;
    }
    return true, growth;
  }

  lemma EmptyRewrite(h: HexFlags)
    ensures Encoded([]) && HexRewrite([], h) == []
  {
  }

  /** Where the cursors of the backward pass stand: what is behind the write cursor has its final length. */
  ghost predicate Cursors(start: nat, t: Bytes, read: nat, write: nat, h: HexFlags) {
    && read <= |t| && !(read > 0 && Swallowed(t, read - 1, h))
    && start + read <= write
    && write == start + WrittenBefore(t, read, h)
    && write + |RewriteFrom(t, read, h)| == start + |RewriteFrom(t, 0, h)|
  }

  /** The state of the backward pass: `read` bytes unread and intact, the rest rewritten at the far end. */
  ghost predicate BackwardAt(data: array<Byte>, start: nat, t: Bytes, read: nat, write: nat, h: HexFlags)
    reads data
  {
    && Cursors(start, t, read, write, h) && start + |RewriteFrom(t, 0, h)| <= data.Length
    && data[start..start + read] == t[..read]
    && data[write..start + |RewriteFrom(t, 0, h)|] == RewriteFrom(t, read, h)
  }

  lemma CursorsMove(start: nat, t: Bytes, read: nat, write: nat, next: nat, piece: Bytes, h: HexFlags)
    requires next < read && Cursors(start, t, read, write, h)
    requires RewriteFrom(t, next, h) == piece + RewriteFrom(t, read, h)
    requires WrittenBefore(t, read, h) == WrittenBefore(t, next, h) + |piece|
    requires !(next > 0 && Swallowed(t, next - 1, h)) && WrittenBefore(t, next, h) >= next
    ensures write >= |piece| && start + next <= write - |piece|
    ensures Cursors(start, t, next, write - |piece|, h)
  {
    hide RewriteFrom, WrittenBefore, Swallowed;
  }

  /** The last unread byte is a quote whose backslash goes with it. */
  predicate EscapedQuote(t: Bytes, read: nat, h: HexFlags)
    requires 0 < read <= |t|
  {
    h.quot && t[read - 1] == QUOTE && 1 < read < |t| && t[read - 2] == BACKSLASH
  }

  /** One turn: what the byte at `read - 1` becomes, and where the cursors go. */
  lemma BackwardTurn(t: Bytes, read: nat, h: HexFlags) returns (next: nat, piece: Bytes)
    requires 0 < read <= |t| && !Swallowed(t, read - 1, h)
    ensures next == if EscapedQuote(t, read, h) then read - 2 else read - 1
    ensures piece == Rep(t, read - 1, h)
    ensures RewriteFrom(t, next, h) == piece + RewriteFrom(t, read, h)
    ensures WrittenBefore(t, read, h) == WrittenBefore(t, next, h) + |piece|
    ensures !(next > 0 && Swallowed(t, next - 1, h)) && WrittenBefore(t, next, h) >= next
  {
    next := if EscapedQuote(t, read, h) then read - 2 else read - 1;
    piece := Rep(t, read - 1, h);
    NeverShrinks(t, next, h);
    hide HexEscape;
    if next == read - 2 {
      assert Swallowed(t, next, h);
      assert RewriteFrom(t, next, h) == [] + RewriteFrom(t, read - 1, h);
    }
  }

  /** Writes a piece just before what is already in place, leaving the bytes up to `keep` alone. */
  method PlacePiece(data: array<Byte>, ghost start: nat, ghost keep: nat, at: nat, piece: Bytes, ghost total: nat)
    requires start <= keep <= at && at + |piece| <= total <= data.Length
    modifies data
    ensures data[..start] == old(data[..start]) && data[start..keep] == old(data[start..keep])
    ensures data[at..total] == piece + old(data[at + |piece|..total])
  {
    CopyInto(data, at, piece);
    assert data[at + |piece|..total] == old(data[at + |piece|..total]);
    assert data[at..total] == data[at..at + |piece|] + data[at + |piece|..total];
  }

  /** Which bytes the backward pass looks at, and what it decides. */
  method BackwardChoice(data: array<Byte>, start: nat, origLen: nat, read: nat, h: HexFlags, ghost t: Bytes)
    returns (read': nat, replacement: Bytes)
    requires origLen == |t| && 0 < read <= origLen && start + read <= data.Length
    requires data[start..start + read] == t[..read]
    requires !Swallowed(t, read - 1, h)
    ensures read' == if EscapedQuote(t, read, h) then read - 2 else read - 1
    ensures replacement == Rep(t, read - 1, h)
  {
    var pos := start + read - 1;
    var c := data[pos];
    assert c == data[start..start + read][read - 1] == t[read - 1];
    assert read > 1 ==> data[pos - 1] == data[start..start + read][read - 2] == t[read - 2];
    read' := read - 1;
    replacement := [];
    if h.quot && c == QUOTE && pos > start && pos + 1 < start + origLen && data[pos - 1] == BACKSLASH {
      replacement := HexEscape(QUOTE, h);
      read' := read - 2;
    } else if c != QUOTE {
      replacement := HexEscape(c, h);
    }
    if replacement == [] {
      replacement := [c];
    }
  }

  /** One byte (or one escaped quote) moved to its place. */
  method BackwardStep(data: array<Byte>, start: nat, origLen: nat, read: nat, write: nat, h: HexFlags, ghost t: Bytes)
    returns (read': nat, write': nat)
    requires origLen == |t| && 0 < read && BackwardAt(data, start, t, read, write, h)
    modifies data
    ensures read' < read && BackwardAt(data, start, t, read', write', h)
    ensures data[..start] == old(data[..start])
  {
    hide RewriteFrom, WrittenBefore, Rep, HexEscape, Swallowed;
    ghost var next, piece := BackwardTurn(t, read, h);
    CursorsMove(start, t, read, write, next, piece, h);
    ghost var total := start + |RewriteFrom(t, 0, h)|;
    hide Cursors;
    var replacement;
    read', replacement := BackwardChoice(data, start, origLen, read, h, t);
    write' := write - |replacement|;
    assert data[start..start + read'] == t[..read'] by {
      assert data[start..start + read'] == data[start..start + read][..read'];
    }
    PlacePiece(data, start, start + read', write', replacement, total);
  }

  /** The whole backward pass: its write cursor comes to rest exactly where the region begins. */
  method RewriteBackwards(data: array<Byte>, start: nat, origLen: nat, growth: nat, h: HexFlags)
    requires start + origLen + growth <= data.Length
    requires Encoded(data[start..start + origLen])
    requires growth == |HexRewrite(data[start..start + origLen], h)| - origLen
    modifies data
    ensures data[..start] == old(data[..start])
    ensures data[start..start + origLen + growth] == HexRewrite(old(data[start..start + origLen]), h)
  {
    hide IsBody, RewriteBody, RewriteFrom, WrittenBefore;
    if origLen == 0 {
      return;
    }
    ghost var t := data[start..start + origLen];
    RewriteFromStart(t, h);
    WrittenEnds(t, h);
    var read, write: nat := origLen, start + origLen + growth;
    while read > 0
      invariant BackwardAt(data, start, t, read, write, h)
      invariant data[..start] == old(data[..start])
    {
      read, write := BackwardStep(data, start, origLen, read, write, h, t);
    }
    WrittenEnds(t, h);
    assert write == start;
  }

  lemma WrittenEnds(t: Bytes, h: HexFlags)
    ensures WrittenBefore(t, 0, h) == 0 && RewriteFrom(t, |t|, h) == []
    ensures WrittenBefore(t, |t|, h) == |RewriteFrom(t, 0, h)| >= |t|
  {
    WrittenTotal(t, |t|, h);
    NeverShrinks(t, |t|, h);
  }

  /** The hex pass over everything the buffer holds from `start` on. */
  method ApplyHexEscapes(buf: SmartStr, h: HexFlags, start: nat) returns (ok: bool)
    requires buf.Valid() && start <= buf.len && Encoded(buf.Contents()[start..])
    modifies buf`len, buf`data, buf.data
    ensures buf.Valid() && (buf.data == old(buf.data) || fresh(buf.data))
    ensures ok ==> buf.Contents() == old(buf.Contents()[..start]) + HexRewrite(old(buf.Contents()[start..]), h)
    ensures !ok ==> buf.Contents() == old(buf.Contents())
    ensures !ok ==> start + |HexRewrite(old(buf.Contents()[start..]), h)| > buf.maxLen
  {
    hide IsBody, RewriteBody, Encoded, HexRewrite;
    var origLen := buf.len - start;
    ghost var t := buf.Contents()[start..];
    assert t == buf.data[start..buf.len];
    var counted, growth := CountGrowth(buf.data[start..buf.len], h, buf.maxLen);
    if !counted {
      return false;
    }
    if growth == 0 {
      SameLengthSameText(t, h);
      assert buf.Contents() == buf.Contents()[..start] + t;
      return true;
    }
    if start + origLen + growth > buf.maxLen {
      return false;
    }
    buf.Alloc(growth);
    assert buf.data[start..start + origLen] == buf.Contents()[start..];
    assert buf.data[..start] == buf.Contents()[..start];
    RewriteBackwards(buf.data, start, origLen, growth, h);
    buf.len := start + origLen + growth;
    assert buf.Contents() == buf.data[..start] + buf.data[start..buf.len];
    return true;
  }

  /** A rewrite that does not grow replaces nothing. */
  lemma SameLengthSameText(t: Bytes, h: HexFlags)
    requires Encoded(t) && |HexRewrite(t, h)| == |t|
    ensures HexRewrite(t, h) == t
  {
    hide IsBody, RewriteBody;
    if t != [] {
      var body := t[1..|t| - 1];
      assert |RewriteBody(body, h)| == |body|;
      hide Encoded, HexRewrite;
      SameLengthSameBody(body, h);
      assert t == [QUOTE] + body + [QUOTE];
    }
  }

  lemma TokenGrows(b: Bytes, h: HexFlags)
    requires b != [] && TokenOk(b)
    ensures |RewriteToken(b, h)| >= TokenLen(b)
    ensures |RewriteToken(b, h)| == TokenLen(b) ==> RewriteToken(b, h) == b[..TokenLen(b)]
  {
  }

  lemma {:induction false} SameLengthSameBody(b: Bytes, h: HexFlags)
    requires IsBody(b) && |RewriteBody(b, h)| == |b|
    ensures RewriteBody(b, h) == b
  {
    hide TokenOk, TokenLen, RewriteToken;
    if b != [] {
      TokenGrows(b, h);
      BodyGrows(b[TokenLen(b)..], h);
      SameLengthSameBody(b[TokenLen(b)..], h);
      assert b == b[..TokenLen(b)] + b[TokenLen(b)..];
    }
  }
}
