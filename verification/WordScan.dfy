/** Scans that read eight bytes at a time, and the byte-wise properties they decide. */
module WordScan {
  import opened ByteStrings

  const ONES: bv64 := 0x0101010101010101
  const HIGHS: bv64 := 0x8080808080808080

  /** The eight bytes of a word, in memory order. */
  datatype Lanes = Lanes(b0: bv8, b1: bv8, b2: bv8, b3: bv8, b4: bv8, b5: bv8, b6: bv8, b7: bv8)

  /** The little-endian word made of eight bytes. */
  function Pack(l: Lanes): bv64 {
    (l.b0 as bv64) | ((l.b1 as bv64) << 8) | ((l.b2 as bv64) << 16) | ((l.b3 as bv64) << 24)
    | ((l.b4 as bv64) << 32) | ((l.b5 as bv64) << 40) | ((l.b6 as bv64) << 48) | ((l.b7 as bv64) << 56)
  }

  function Repeat(c: bv8): bv64 {
    Pack(Lanes(c, c, c, c, c, c, c, c))
  }

  predicate ByteNeedsEscape(c: Byte, slashes: bool) {
    c < 0x20 || c >= 0x80 || c == QUOTE || c == BACKSLASH || (c == SLASH && slashes)
  }

  predicate Clean(s: Bytes, from: nat, to: nat, slashes: bool)
    requires from <= to <= |s|
  {
    forall k :: from <= k < to ==> !ByteNeedsEscape(s[k], slashes)
  }

  predicate Ascii(s: Bytes, from: nat, to: nat)
    requires from <= to <= |s|
  {
    forall k :: from <= k < to ==> s[k] < 0x80
  }

  /** `word & highs`: some byte has its top bit set. */
  method TestHighs(l: Lanes) returns (found: bool)
    ensures found <==>
      (l.b0 >= 0x80 || l.b1 >= 0x80 || l.b2 >= 0x80 || l.b3 >= 0x80
      || l.b4 >= 0x80 || l.b5 >= 0x80 || l.b6 >= 0x80 || l.b7 >= 0x80)
  {
    found := Pack(l) & HIGHS != 0;
  }

  /** The borrow trick against 0x20: some byte is a control character. */
  method TestControls(l: Lanes) returns (found: bool)
    ensures found <==>
      (l.b0 < 0x20 || l.b1 < 0x20 || l.b2 < 0x20 || l.b3 < 0x20
      || l.b4 < 0x20 || l.b5 < 0x20 || l.b6 < 0x20 || l.b7 < 0x20)
  {
    found := (Pack(l) - Repeat(0x20)) & !Pack(l) & HIGHS != 0;
  }

  lemma XorLanes(l: Lanes, c: bv8)
    ensures Pack(l) ^ Repeat(c) == Pack(Lanes(l.b0 ^ c, l.b1 ^ c, l.b2 ^ c, l.b3 ^ c,
                                              l.b4 ^ c, l.b5 ^ c, l.b6 ^ c, l.b7 ^ c))
  {
  }

  /** The borrow trick against zero is exact. */
  method TestZero(word: bv64, ghost l: Lanes) returns (found: bool)
    requires word == Pack(l)
    ensures found <==>
      (l.b0 == 0 || l.b1 == 0 || l.b2 == 0 || l.b3 == 0 || l.b4 == 0 || l.b5 == 0 || l.b6 == 0 || l.b7 == 0)
  {
    found := (word - ONES) & !word & HIGHS != 0;
  }

  lemma XorIsZero(b: bv8, c: bv8)
    ensures b ^ c == 0 <==> b == c
  {
  }

  /** Cancelling `c` out of the word makes exactly its lanes zero. */
  method CancelByte(l: Lanes, c: bv8) returns (word: bv64, ghost m: Lanes)
    ensures word == Pack(m)
    ensures (m.b0 == 0 <==> l.b0 == c) && (m.b1 == 0 <==> l.b1 == c) && (m.b2 == 0 <==> l.b2 == c)
    ensures (m.b3 == 0 <==> l.b3 == c) && (m.b4 == 0 <==> l.b4 == c) && (m.b5 == 0 <==> l.b5 == c)
    ensures (m.b6 == 0 <==> l.b6 == c) && (m.b7 == 0 <==> l.b7 == c)
  {
    word := Pack(l) ^ Repeat(c);
    m := Lanes(l.b0 ^ c, l.b1 ^ c, l.b2 ^ c, l.b3 ^ c, l.b4 ^ c, l.b5 ^ c, l.b6 ^ c, l.b7 ^ c);
    XorLanes(l, c);
    XorIsZero(l.b0, c); XorIsZero(l.b1, c); XorIsZero(l.b2, c); XorIsZero(l.b3, c);
    XorIsZero(l.b4, c); XorIsZero(l.b5, c); XorIsZero(l.b6, c); XorIsZero(l.b7, c);
  }

  ghost predicate AnyLane(l: Lanes, c: bv8) {
    l.b0 == c || l.b1 == c || l.b2 == c || l.b3 == c || l.b4 == c || l.b5 == c || l.b6 == c || l.b7 == c
  }

  /** Some byte equals `c`. */
  method TestMatches(l: Lanes, c: bv8) returns (found: bool)
    ensures found <==> AnyLane(l, c)
  {
    var word, m := CancelByte(l, c);
    found := TestZero(word, m);
  }

  /** A byte and its lane answer alike to every comparison the word tests make. */
  ghost predicate SameByte(b: bv8, c: Byte) {
    && (b < 0x20 <==> c < 0x20)
    && (b >= 0x80 <==> c >= 0x80)
    && (b == 0x0A <==> c == NEWLINE)
    && (b == 0x22 <==> c == QUOTE)
    && (b == 0x2F <==> c == SLASH)
    && (b == 0x5C <==> c == BACKSLASH)
  }

  lemma LaneRange(c: Byte)
    ensures c as bv8 < 0x20 <==> c < 0x20
    ensures c as bv8 >= 0x80 <==> c >= 0x80
  {
  }

  lemma LaneEquals(c: Byte)
    ensures c as bv8 == 0x0A <==> c == NEWLINE
    ensures c as bv8 == 0x22 <==> c == QUOTE
    ensures c as bv8 == 0x2F <==> c == SLASH
    ensures c as bv8 == 0x5C <==> c == BACKSLASH
  {
  }

  method LaneOf(c: Byte) returns (b: bv8)
    ensures SameByte(b, c)
  {
    LaneRange(c);
    LaneEquals(c);
    b := c as bv8;
  }

  ghost predicate SameWord(l: Lanes, s: Bytes, i: nat)
    requires i + 8 <= |s|
  {
    && SameByte(l.b0, s[i]) && SameByte(l.b1, s[i + 1]) && SameByte(l.b2, s[i + 2]) && SameByte(l.b3, s[i + 3])
    && SameByte(l.b4, s[i + 4]) && SameByte(l.b5, s[i + 5]) && SameByte(l.b6, s[i + 6]) && SameByte(l.b7, s[i + 7])
  }

  ghost predicate AnyOf(s: Bytes, i: nat, c: Byte)
    requires i + 8 <= |s|
  {
    || s[i] == c || s[i + 1] == c || s[i + 2] == c || s[i + 3] == c
    || s[i + 4] == c || s[i + 5] == c || s[i + 6] == c || s[i + 7] == c
  }

  lemma AnyOfExists(s: Bytes, i: nat, c: Byte)
    requires i + 8 <= |s|
    ensures AnyOf(s, i, c) <==> exists k :: i <= k < i + 8 && s[k] == c
  {
  }

  method LoadWord(s: Bytes, i: nat) returns (l: Lanes)
    requires i + 8 <= |s|
    ensures SameWord(l, s, i)
  {
    hide SameByte;
    var b0 := LaneOf(s[i]);
    var b1 := LaneOf(s[i + 1]);
    var b2 := LaneOf(s[i + 2]);
    var b3 := LaneOf(s[i + 3]);
    var b4 := LaneOf(s[i + 4]);
    var b5 := LaneOf(s[i + 5]);
    var b6 := LaneOf(s[i + 6]);
    var b7 := LaneOf(s[i + 7]);
    l := Lanes(b0, b1, b2, b3, b4, b5, b6, b7);
  }

  method WordHasHigh(s: Bytes, i: nat) returns (found: bool)
    requires i + 8 <= |s|
    ensures found <==> !Ascii(s, i, i + 8)
  {
    var l := LoadWord(s, i);
    found := TestHighs(l);
  }

  method WordHasControl(s: Bytes, i: nat) returns (found: bool)
    requires i + 8 <= |s|
    ensures found <==> exists k :: i <= k < i + 8 && s[k] < 0x20
  {
    var l := LoadWord(s, i);
    found := TestControls(l);
  }

  lemma NewlineLanes(l: Lanes, s: Bytes, i: nat)
    requires i + 8 <= |s| && SameWord(l, s, i)
    ensures AnyOf(s, i, NEWLINE) <==> AnyLane(l, 0x0A)
  {
  }

  lemma QuoteLanes(l: Lanes, s: Bytes, i: nat)
    requires i + 8 <= |s| && SameWord(l, s, i)
    ensures AnyOf(s, i, QUOTE) <==> AnyLane(l, 0x22)
  {
  }

  lemma SlashLanes(l: Lanes, s: Bytes, i: nat)
    requires i + 8 <= |s| && SameWord(l, s, i)
    ensures AnyOf(s, i, SLASH) <==> AnyLane(l, 0x2F)
  {
  }

  lemma BackslashLanes(l: Lanes, s: Bytes, i: nat)
    requires i + 8 <= |s| && SameWord(l, s, i)
    ensures AnyOf(s, i, BACKSLASH) <==> AnyLane(l, 0x5C)
  {
  }

  method WordHasByte(s: Bytes, i: nat, c: Byte) returns (found: bool)
    requires i + 8 <= |s|
    requires c == NEWLINE || c == QUOTE || c == SLASH || c == BACKSLASH
    ensures found <==> exists k :: i <= k < i + 8 && s[k] == c
  {
    var l := LoadWord(s, i);
    AnyOfExists(s, i, c);
    hide SameByte, SameWord, AnyOf, AnyLane;
    if c == NEWLINE {
      NewlineLanes(l, s, i);
      found := TestMatches(l, 0x0A);
    } else if c == QUOTE {
      QuoteLanes(l, s, i);
      found := TestMatches(l, 0x22);
    } else if c == SLASH {
      SlashLanes(l, s, i);
      found := TestMatches(l, 0x2F);
    } else {
      BackslashLanes(l, s, i);
      found := TestMatches(l, 0x5C);
    }
  }

  /** The word test is exact: it fires iff one of the eight bytes needs an escape. */
  method AsciiWordNeedsEscape(s: Bytes, i: nat, slashes: bool) returns (needs: bool)
    requires i + 8 <= |s|
    ensures needs <==> !Clean(s, i, i + 8, slashes)
  {
    var high := WordHasHigh(s, i);
    var control := WordHasControl(s, i);
    var quote := WordHasByte(s, i, QUOTE);
    var backslash := WordHasByte(s, i, BACKSLASH);
    var forward := WordHasByte(s, i, SLASH);
    needs := high || control || quote || backslash || (slashes && forward);
  }

  /**
   * Whether the string can be copied between quotes unchanged. When it cannot, `prefixLen` bytes can,
   * and if the reported prefix reaches the last eighth of the string it is the longest such prefix.
   */
  method IsCopyableAscii(s: Bytes, slashes: bool) returns (copyable: bool, prefixLen: nat)
    ensures prefixLen <= |s| && Clean(s, 0, prefixLen, slashes)
    ensures copyable <==> Clean(s, 0, |s|, slashes)
    ensures copyable <==> prefixLen == |s|
    ensures !copyable && |s| - |s| / 8 <= prefixLen ==> ByteNeedsEscape(s[prefixLen], slashes)
  {
    var pos := 0;
    while pos + 8 <= |s|
      invariant pos <= |s|
      invariant Clean(s, 0, pos, slashes)
    {
      var needs := AsciiWordNeedsEscape(s, pos, slashes);
      if needs {
        if |s| - |s| / 8 <= pos {
          while pos < |s|
            invariant pos <= |s|
            invariant Clean(s, 0, pos, slashes)
          {
            if ByteNeedsEscape(s[pos], slashes) {
              return false, pos;
            }
            pos := pos + 1;
          }
        }
        return false, pos;
      }
      pos := pos + 8;
    }
    while pos < |s|
      invariant pos <= |s|
      invariant Clean(s, 0, pos, slashes)
    {
      if ByteNeedsEscape(s[pos], slashes) {
        return false, pos;
      }
      pos := pos + 1;
    }
    return true, |s|;
  }

  /** A leading UTF-8 byte-order mark counts as no column. */
  function TextStart(json: Bytes, pos: nat): (start: nat)
    requires pos <= |json|
    ensures start <= pos
  {
    if pos >= 3 && json[0] == 0xEF && json[1] == 0xBB && json[2] == 0xBF then 3 else 0
  }

  /** One more than the number of newlines in `json[start..pos]`. */
  function LineAt(json: Bytes, start: nat, pos: nat): nat
    requires start <= pos <= |json|
  {
    if pos == start then 1
    else LineAt(json, start, pos - 1) + if json[pos - 1] == NEWLINE then 1 else 0
  }

  /** Where the line that holds position `pos` begins. */
  function LineStart(json: Bytes, start: nat, pos: nat): (r: nat)
    requires start <= pos <= |json|
    ensures start <= r <= pos
  {
    if pos == start then start
    else if json[pos - 1] == NEWLINE then pos
    else LineStart(json, start, pos - 1)
  }

  lemma {:induction false} NoNewlineNoChange(json: Bytes, start: nat, from: nat, to: nat)
    requires start <= from <= to <= |json|
    requires forall k :: from <= k < to ==> json[k] != NEWLINE
    ensures LineAt(json, start, to) == LineAt(json, start, from)
    ensures LineStart(json, start, to) == LineStart(json, start, from)
  {
    if from < to {
      NoNewlineNoChange(json, start, from, to - 1);
    }
  }

  /** What stands before `pos`, a leading byte-order mark left out. */
  function PlainText(json: Bytes, pos: nat): Bytes
    requires pos <= |json|
  {
    var before := json[..pos];
    if [0xEF, 0xBB, 0xBF] <= before then before[3..] else before
  }

  predicate AllAscii(text: Bytes) {
    forall b :: b in text ==> b < 0x80
  }

  /**
   * The position behind `text`: one line more than it has newlines, and the column counted from one behind the last
   * newline, or from the beginning if there is none.
   */
  ghost predicate Located(text: Bytes, line: nat, col: nat) {
    && line == 1 + multiset(text)[0x0A]
    && 1 <= col <= |text| + 1
    && 0x0A !in text[|text| + 1 - col..]
    && (col == |text| + 1 || text[|text| - col] == 0x0A)
  }

  lemma StartsWithMark(json: Bytes, pos: nat)
    requires pos <= |json|
    ensures PlainText(json, pos) == json[TextStart(json, pos)..pos]
  {
    var before := json[..pos];
    if TextStart(json, pos) == 3 {
      assert before[..3] == [0xEF, 0xBB, 0xBF];
    }
  }

  lemma AsciiText(json: Bytes, start: nat, pos: nat)
    requires start <= pos <= |json|
    ensures Ascii(json, start, pos) <==> AllAscii(json[start..pos])
  {
    var text := json[start..pos];
    if Ascii(json, start, pos) {
      assert forall k :: 0 <= k < |text| ==> text[k] == json[start + k];
    } else {
      var k :| start <= k < pos && json[k] >= 0x80;
      assert text[k - start] == json[k] && json[k] in text;
    }
  }

  /** The line and column in terms of the text before the position alone. */
  lemma CountedLines(json: Bytes, pos: nat)
    requires pos <= |json|
    ensures Ascii(json, TextStart(json, pos), pos) <==> AllAscii(PlainText(json, pos))
    ensures var start := TextStart(json, pos);
            Located(PlainText(json, pos), LineAt(json, start, pos), pos - LineStart(json, start, pos) + 1)
  {
    var start := TextStart(json, pos);
    var text, r := json[start..pos], LineStart(json, start, pos);
    StartsWithMark(json, pos);
    AsciiText(json, start, pos);
    LinesCounted(json, start, pos);
    LineStartsThere(json, start, pos);
    hide TextStart, LineAt, LineStart, Ascii, PlainText, AllAscii;
    assert text[r - start..] == json[r..pos];
    assert r > start ==> text[r - start - 1] == json[r - 1];
  }

  lemma {:induction false} LinesCounted(json: Bytes, start: nat, pos: nat)
    requires start <= pos <= |json|
    ensures LineAt(json, start, pos) == 1 + multiset(json[start..pos])[0x0A]
  {
    if start < pos {
      LinesCounted(json, start, pos - 1);
      assert json[start..pos] == json[start..pos - 1] + [json[pos - 1]];
    }
  }

  lemma {:induction false} LineStartsThere(json: Bytes, start: nat, pos: nat)
    requires start <= pos <= |json|
    ensures var r := LineStart(json, start, pos);
            && 0x0A !in json[r..pos]
            && (r == start || json[r - 1] == 0x0A)
  {
    if start < pos && json[pos - 1] != NEWLINE {
      LineStartsThere(json, start, pos - 1);
    }
  }

  /**
   * The line and column of a byte offset, or `false` iff a non-ASCII byte stands before it.
   */
  method LocateAsciiPos(json: Bytes, pos: nat) returns (found: bool, line: nat, col: nat)
    requires pos <= |json|
    ensures found <==> Ascii(json, TextStart(json, pos), pos)
    ensures found ==> line == LineAt(json, TextStart(json, pos), pos)
    ensures found ==> col == pos - LineStart(json, TextStart(json, pos), pos) + 1
  {
    var start := TextStart(json, pos);
    var lineCount, lineStart, i := 0, start, start;
    while i + 8 <= pos
      invariant start <= i <= pos
      invariant Ascii(json, start, i)
      invariant lineCount + 1 == LineAt(json, start, i) && lineStart == LineStart(json, start, i)
    {
      var high := WordHasHigh(json, i);
      if high {
        return false, 0, 0;
      }
      var newline := WordHasByte(json, i, NEWLINE);
      if newline {
        for j := 0 to 8
          invariant lineCount + 1 == LineAt(json, start, i + j) && lineStart == LineStart(json, start, i + j)
        {
          if json[i + j] == NEWLINE {
            lineCount, lineStart := lineCount + 1, i + j + 1;
          }
        }
      } else {
        NoNewlineNoChange(json, start, i, i + 8);
      }
      i := i + 8;
    }
    while i < pos
      invariant start <= i <= pos
      invariant Ascii(json, start, i)
      invariant lineCount + 1 == LineAt(json, start, i) && lineStart == LineStart(json, start, i)
    {
      if json[i] >= 0x80 {
        return false, 0, 0;
      }
      if json[i] == NEWLINE {
        lineCount, lineStart := lineCount + 1, i + 1;
      }
      i := i + 1;
    }
    return true, lineCount + 1, pos - lineStart + 1;
  }
}
