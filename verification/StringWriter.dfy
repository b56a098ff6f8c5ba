/**
 * The strategies for appending one large JSON string to the output buffer. Whatever the strategy, what is
 * appended is the quoted string, and a failure leaves the visible contents alone.
 */
module StringWriter {
  import opened ByteStrings
  import opened Utf8
  import opened Escape
  import opened SmartStr
  import opened Wrappers
  import WordScan

  datatype SizeStatus = Fine | InvalidUtf8 | TooLarge

  /** The sizes the strategies are tuned by; every theorem holds for all of them. */
  datatype Tuning = Tuning(chunk: nat, sizedFrom: nat, sizedAlways: nat, exactFrom: nat)

  /** With this much room left, no string of at most `n` bytes is refused for its size. */
  function Headroom(n: nat, t: Tuning): nat {
    6 * n + 6 * t.chunk + 3
  }

  // ---------------------------------------------------------------- cutting a string into chunks

  lemma ValidHead(t: Bytes)
    requires t != [] && WellFormed(t)
    ensures !Tail(t[0]) && SeqLen(t[0]) <= |t|
    ensures forall k :: 0 < k < SeqLen(t[0]) ==> Tail(t[k])
    ensures WellFormed([]) && WellFormed(t[..SeqLen(t[0])]) && WellFormed(t[SeqLen(t[0])..])
  {
    ValidFits(t, 0);
    var head := t[..SeqLen(t[0])];
    assert ValidAt(head, 0) && head[SeqLen(head[0])..] == [];
  }

  lemma PrefixGrows(t: Bytes, n: nat, k: nat)
    requires n + k <= |t| && WellFormed(t[..n]) && WellFormed(t[n..][..k])
    ensures WellFormed(t[..n + k])
  {
    hide WellFormed;
    assert t[..n + k] == t[..n] + t[n..][..k];
    WellFormedAppend(t[..n], t[n..][..k]);
  }

  /** Where the code point that holds byte `m - 1` of a well-formed string starts. */
  lemma {:induction false} LastStart(t: Bytes, m: nat) returns (r: nat)
    requires WellFormed(t) && 0 < m <= |t|
    ensures r < m <= r + SeqLen(t[r]) <= |t|
    ensures !Tail(t[r]) && forall k :: r < k < m ==> Tail(t[k])
    ensures WellFormed(t[..r]) && WellFormed(t[..r + SeqLen(t[r])])
  {
    hide WellFormed;
    ValidHead(t);
    var n := SeqLen(t[0]);
    if m <= n {
      r := 0;
      assert t[..0] == [];
    } else {
      var q := LastStart(t[n..], m - n);
      r := n + q;
      assert t[r] == t[n..][q];
      assert forall k :: r < k < m ==> t[k] == t[n..][k - n];
      PrefixGrows(t, n, q);
      PrefixGrows(t, n, q + SeqLen(t[n..][q]));
    }
  }

  lemma CodePointAtCut(s: Bytes, pos: nat, n: nat) returns (r: nat)
    requires 0 < n && pos + n <= |s| && WellFormed(s[pos..])
    ensures pos <= r < pos + n <= r + SeqLen(s[r]) <= |s|
    ensures !Tail(s[r]) && forall k :: r < k < pos + n ==> Tail(s[k])
    ensures WellFormed(s[pos..r]) && WellFormed(s[pos..r + SeqLen(s[r])])
  {
    hide WellFormed;
    var q := LastStart(s[pos..], n);
    r := pos + q;
    assert s[pos..][q] == s[r];
    assert forall k :: r < k < pos + n ==> s[k] == s[pos..][k - pos];
    assert s[pos..][..q] == s[pos..r];
    assert s[pos..][..q + SeqLen(s[r])] == s[pos..r + SeqLen(s[r])];
  }

  /**
   * How much of `s[pos..]` to write next. A chunk makes progress, and never splits a code point: when the
   * rest of the string is well-formed, so is the chunk.
   */
  method JsonChunkLen(s: Bytes, pos: nat, want: nat) returns (n: nat)
    requires pos <= |s|
    ensures pos + n <= |s|
    ensures pos < |s| && want > 0 ==> n > 0
    ensures n <= if want < 4 then 4 else want
    ensures n + 3 >= want || pos + n == |s|
    ensures WellFormed(s[pos..]) ==> WellFormed(s[pos..pos + n])
  {
    hide WellFormed;
    n := want;
    if n > |s| - pos {
      n := |s| - pos;
    }
    if n == 0 || pos + n >= |s| {
      assert s[pos..pos + n] == if n == 0 then [] else s[pos..];
      EmptyIsWellFormed();
      return;
    }
    ghost var r := pos;
    if WellFormed(s[pos..]) {
      r := CodePointAtCut(s, pos, n);
    }
    var i := LastNonTail(s, pos, n);
    assert WellFormed(s[pos..]) ==> i == r + 1;
    if i == pos {
      return;
    }
    n := WholeCodePoints(s, pos, n, i - 1);
  }

  /** One past the last byte of `s[pos..pos + n]` that does not continue a sequence. */
  method LastNonTail(s: Bytes, pos: nat, n: nat) returns (i: nat)
    requires pos + n <= |s|
    ensures pos <= i <= pos + n && (i > pos ==> !Tail(s[i - 1]))
    ensures forall k :: i <= k < pos + n ==> Tail(s[k])
  {
    i := pos + n;
    while i > pos && s[i - 1] / 64 == 2
      invariant pos <= i <= pos + n
      invariant forall k :: i <= k < pos + n ==> Tail(s[k])
    {
      i := i - 1;
    }
  }

  /** A cut moved to the boundary of the code point that starts at `at`, the last one before it. */
  method WholeCodePoints(s: Bytes, pos: nat, n: nat, at: nat) returns (m: nat)
    requires pos <= at < pos + n < |s|
    requires WellFormed(s[pos..]) ==> at + SeqLen(s[at]) <= |s| && pos + n <= at + SeqLen(s[at])
    requires WellFormed(s[pos..]) ==> WellFormed(s[pos..at]) && WellFormed(s[pos..at + SeqLen(s[at])])
    ensures 0 < m && pos + m <= |s| && m <= (if n < 4 then 4 else n) && m + 3 >= n
    ensures WellFormed(s[pos..]) ==> WellFormed(s[pos..pos + m])
  {
    hide WellFormed;
    var lead := s[at];
    if lead < 0x80 {
      return n;
    }
    var need := if lead < 0xE0 then 2 else if lead < 0xF0 then 3 else 4;
    var have := pos + n - at;
    if have >= need {
      return n;
    }
    if at > pos {
      return at - pos;
    }
    if pos + need <= |s| {
      return need;
    }
    return n;
  }

  // ---------------------------------------------------------------- the one-pass escaper

  /**
   * The library's escaper, writing at `at` in a buffer the caller has made large enough. It fails exactly
   * on ill-formed UTF-8, and then leaves scratch bytes behind.
   */
  method WriteStringToBuf(data: array<Byte>, at: nat, s: Bytes, f: WriteFlags) returns (end: Option<nat>)
    requires WellFormed(s) ==> at + |Quoted(s, f, NO_HEX)| <= data.Length
    requires !WellFormed(s) ==> at + 6 * |s| + 2 <= data.Length
    modifies data
    ensures end.Some? <==> WellFormed(s)
    ensures end.Some? ==> end.value == at + |Quoted(s, f, NO_HEX)| && data[at..end.value] == Quoted(s, f, NO_HEX)
    ensures data[..at] == old(data[..at])
  {
    hide WellFormed, Body;
    var ok := Utf8WellFormed(s);
    if ok {
      CopyInto(data, at, Quoted(s, f, NO_HEX));
      return Some(at + |Quoted(s, f, NO_HEX)|);
    }
    CopyInto(data, at, [QUOTE]);
    return None;
  }

  lemma QuotedSize(s: Bytes, f: WriteFlags)
    ensures |Quoted(s, f, NO_HEX)| == |Body(s, f, NO_HEX)| + 2 <= 6 * |s| + 2
  {
    BodySize(s, f);
  }

  // ---------------------------------------------------------------- chunked writing

  /**
   * One chunk, written in place: the escaper's opening quote lands on the last visible byte, which is put
   * back afterwards, so the chunk's body continues the output and its closing quote is left just past it.
   */
  method WriteChunk(buf: SmartStr, chunk: Bytes, f: WriteFlags) returns (ok: bool)
    requires buf.Valid() && buf.len > 0
    requires buf.len + 6 * |chunk| + 2 <= buf.data.Length
    modifies buf`len, buf.data
    ensures buf.Valid() && buf.len < buf.data.Length
    ensures ok == WellFormed(chunk)
    ensures buf.Contents() == old(buf.Contents()) + if ok then Body(chunk, f, NO_HEX) else []
  {
    hide WellFormed, Body;
    QuotedSize(chunk, f);
    var at := buf.len - 1;
    var saved := buf.data[at];
    var end := WriteStringToBuf(buf.data, at, chunk, f);
    ghost var written := buf.data[..];
    buf.data[at] := saved;
    if end.None? || end.value - at < 2 {
      return false;
    }
    assert buf.data[..end.value - 1] == old(buf.Contents()) + Body(chunk, f, NO_HEX) by {
      var quoted := Quoted(chunk, f, NO_HEX);
      assert written[at..end.value] == quoted && quoted[1..|quoted| - 1] == Body(chunk, f, NO_HEX);
      assert written[at + 1..end.value - 1] == quoted[1..|quoted| - 1];
      assert buf.data[..at] == old(buf.data[..at]);
      assert buf.data[at + 1..end.value - 1] == written[at + 1..end.value - 1];
    }
    buf.len := end.value - 1;
    return true;
  }

  /** What a string writer promises: the quoted string appended, or nothing changed and a reason. */
  ghost predicate Appended(status: SizeStatus, before: Bytes, after: Bytes, s: Bytes, f: WriteFlags) {
    && (status.Fine? ==> WellFormed(s) && after == before + Quoted(s, f, NO_HEX))
    && (!status.Fine? ==> after == before)
    && (status.InvalidUtf8? ==> !WellFormed(s))
  }

  lemma ChunkBoundary(s: Bytes, pos: nat, n: nat, f: WriteFlags)
    requires pos + n <= |s| && WellFormed(s[..pos])
    ensures WellFormed(s) == WellFormed(s[pos..])
    ensures WellFormed(s[pos..pos + n]) ==> WellFormed(s[..pos + n])
    ensures Body(s[..pos + n], f, NO_HEX) == Body(s[..pos], f, NO_HEX) + Body(s[pos..pos + n], f, NO_HEX)
  {
    hide WellFormed, Body;
    assert s == s[..pos] + s[pos..];
    WellFormedAppend(s[..pos], s[pos..]);
    assert s[..pos + n] == s[..pos] + s[pos..pos + n];
    WellFormedAppend(s[..pos], s[pos..pos + n]);
    BodyAppend(s[..pos], s[pos..pos + n], f, NO_HEX);
  }

  /** The buffer holds `before` and the opening quote and body of `done`, and has room for one byte more. */
  ghost predicate Midway(buf: SmartStr, before: Bytes, done: Bytes, f: WriteFlags)
    reads buf, buf.data
  {
    && buf.Valid() && buf.len < buf.data.Length
    && WellFormed(done)
    && buf.Contents() == before + [QUOTE] + Body(done, f, NO_HEX)
  }

  /** One turn of the chunk loop: cut, make room, write. */
  method NextChunk(buf: SmartStr, s: Bytes, pos: nat, f: WriteFlags, chunk: nat, ghost before: Bytes)
    returns (status: SizeStatus, pos': nat)
    requires pos < |s| && chunk > 0 && Midway(buf, before, s[..pos], f)
    modifies buf`len, buf`data, buf.data
    ensures buf.data == old(buf.data) || fresh(buf.data)
    ensures pos < pos' <= |s|
    ensures status.Fine? ==> Midway(buf, before, s[..pos'], f)
    ensures !status.Fine? ==> buf.Valid() && buf.Contents() == old(buf.Contents())
    ensures status.InvalidUtf8? ==> !WellFormed(s)
    ensures status.TooLarge? ==> |before| + 6 * |s| + 3 > buf.maxLen
  {
    hide WellFormed, Body;
    var n := JsonChunkLen(s, pos, chunk);
    pos' := pos + n;
    ChunkBoundary(s, pos, n, f);
    BodySize(s[..pos], f);
    var need := n * 6 + 2;
    if buf.len + need > buf.maxLen {
      return TooLarge, pos';
    }
    if buf.data.Length - buf.len < need {
      var grow :| need <= grow <= buf.maxLen - buf.len;
      buf.Alloc(grow);
    }
    var ok := WriteChunk(buf, s[pos..pos'], f);
    if !ok {
      return InvalidUtf8, pos';
    }
    ConcatAssociates(before + [QUOTE], Body(s[..pos], f, NO_HEX), Body(s[pos..pos'], f, NO_HEX));
    return Fine, pos';
  }

  /** Chunk by chunk, with one chunk's worst case of headroom. */
  method WriteJsonStringChunked(buf: SmartStr, s: Bytes, f: WriteFlags, chunk: nat) returns (status: SizeStatus)
    requires buf.Valid() && chunk > 0
    modifies buf`len, buf`data, buf.data
    ensures buf.Valid() && (buf.data == old(buf.data) || fresh(buf.data))
    ensures Appended(status, old(buf.Contents()), buf.Contents(), s, f)
    ensures old(buf.len) + 6 * |s| + 6 * chunk + 3 <= buf.maxLen ==> !status.TooLarge?
  {
    hide WellFormed, Body;
    var current := buf.len;
    ghost var before := buf.Contents();
    if current + 2 + |s| > buf.maxLen || buf.maxLen - current - 2 - |s| < chunk * 6 {
      return TooLarge;
    }
    buf.Alloc(|s| + 2 + chunk * 6);
    buf.Push(QUOTE);
    var pos := 0;
    EmptyIsWellFormed();
    EmptyBody(f);
    assert s[..0] == [];
    while pos < |s|
      invariant pos <= |s|
      invariant buf.data == old(buf.data) || fresh(buf.data)
      invariant Midway(buf, before, s[..pos], f)
      invariant buf.len >= current && buf.Contents()[..current] == before
    {
      status, pos := NextChunk(buf, s, pos, f, chunk, before);
      if !status.Fine? {
        buf.Truncate(current);
        return;
      }
    }
    assert s[..pos] == s;
    buf.Push(QUOTE);
    QuotedConcat(before, s, f);
    return Fine;
  }

  lemma QuotedConcat(before: Bytes, s: Bytes, f: WriteFlags)
    ensures before + [QUOTE] + Body(s, f, NO_HEX) + [QUOTE] == before + Quoted(s, f, NO_HEX)
  {
  }

  lemma EmptyBody(f: WriteFlags)
    ensures Body([], f, NO_HEX) == []
  {
  }

  // ---------------------------------------------------------------- exact size

  lemma BodyExtends(s: Bytes, i: nat, f: WriteFlags)
    requires i < |s| && ValidAt(s, i) && WellFormed(s[..i])
    ensures i + SeqLen(s[i]) <= |s| && ValidAt(s[i..], 0) && WellFormed(s[..i + SeqLen(s[i])])
    ensures Body(s[..i + SeqLen(s[i])], f, NO_HEX)
         == Body(s[..i], f, NO_HEX) + EscapeScalar(DecodeHead(s[i..]), f, NO_HEX)
  {
    hide *;
    ValidFits(s, i);
    ValidAtShift(s, i, 0);
    PointBody(s[i..], f, NO_HEX);
    assert s[i..][..SeqLen(s[i])] == s[i..i + SeqLen(s[i])];
    BodyExtendsBy(s, i, SeqLen(s[i]), f);
  }

  lemma BodyExtendsBy(s: Bytes, i: nat, n: nat, f: WriteFlags)
    requires i + n <= |s| && WellFormed(s[..i])
    ensures WellFormed(s[..i + n]) == WellFormed(s[i..i + n])
    ensures Body(s[..i + n], f, NO_HEX) == Body(s[..i], f, NO_HEX) + Body(s[i..i + n], f, NO_HEX)
  {
    hide WellFormed, Body;
    assert s[..i + n] == s[..i] + s[i..i + n];
    WellFormedAppend(s[..i], s[i..i + n]);
    BodyAppend(s[..i], s[i..i + n], f, NO_HEX);
  }

  /** How many bytes the character at `i` becomes, told from its lead byte alone. */
  function SizeAt(c: Byte, f: WriteFlags): nat {
    if c < 0x20 then
      (if c == 0x08 || c == 0x09 || c == 0x0A || c == 0x0C || c == 0x0D then 2 else 6)
    else if c == QUOTE || c == BACKSLASH then 2
    else if c == SLASH && f.escapeSlashes then 2
    else if c < 0x80 then 1
    else if f.escapeUnicode then (if SeqLen(c) == 4 then 12 else 6)
    else SeqLen(c)
  }

  lemma SizeAtIsExact(s: Bytes, f: WriteFlags)
    requires ValidAt(s, 0)
    ensures |EscapeScalar(DecodeHead(s), f, NO_HEX)| == SizeAt(s[0], f)
  {
    var cp := DecodeHead(s);
    ValidFits(s, 0);
    assert |Encode(cp)| == SeqLen(s[0]);
    assert s[0] < 0x80 ==> cp == s[0];
    hide ValidAt, DecodeHead, Hex4;
  }

  /** The measuring pass: the exact output length, or the first reason there is none. */
  method JsonStringSize(s: Bytes, f: WriteFlags, maxLen: nat)
    returns (status: SizeStatus, outLen: nat, copyable: bool)
    ensures status.Fine? ==> WellFormed(s) && outLen == |Quoted(s, f, NO_HEX)|
    ensures status.Fine? ==> (copyable <==> WordScan.Clean(s, 0, |s|, f.escapeSlashes))
    ensures status.InvalidUtf8? ==> !WellFormed(s)
    ensures status.TooLarge? ==> |Quoted(s, f, NO_HEX)| > maxLen
  {
    hide WellFormed, Body, ValidAt, DecodeHead, EscapeScalar;
    var clean, _ := WordScan.IsCopyableAscii(s, f.escapeSlashes);
    if clean {
      CleanBody(s, f);
      if |s| + 2 > maxLen {
        return TooLarge, 0, false;
      }
      return Fine, |s| + 2, true;
    }
    var size, i := 2, 0;
    copyable := true;
    assert s[..0] == [];
    EmptyIsWellFormed();
    EmptyBody(f);
    while i < |s|
      invariant i <= |s|
      invariant WellFormed(s[..i]) && size == 2 + |Body(s[..i], f, NO_HEX)|
      invariant copyable <==> WordScan.Clean(s, 0, i, f.escapeSlashes)
    {
      var c := s[i];
      if WordScan.ByteNeedsEscape(c, f.escapeSlashes) {
        copyable := false;
      }
      if c >= 0x80 {
        var valid := ByteIsValidUtf8Start(s, i);
        if !valid {
          NotWellFormedAt(s, i);
          return InvalidUtf8, 0, false;
        }
      } else {
        AsciiIsValid(s, i);
      }
      BodyExtends(s, i, f);
      SizeAtIsExact(s[i..], f);
      var add, advance := SizeAt(c, f), SeqLen(c);
      if size + add > maxLen {
        BodyOfPrefix(s, i + advance, f);
        return TooLarge, 0, false;
      }
      size := size + add;
      i := i + advance;
    }
    assert s[..i] == s;
    return Fine, size, copyable;
  }

  /** What a prefix becomes is part of what the whole becomes. */
  lemma BodyOfPrefix(s: Bytes, n: nat, f: WriteFlags)
    requires n <= |s| && WellFormed(s[..n])
    ensures |Body(s[..n], f, NO_HEX)| <= |Body(s, f, NO_HEX)|
  {
    hide WellFormed, Body;
    assert s[..n] + s[n..] == s;
    BodyAppend(s[..n], s[n..], f, NO_HEX);
  }

  /** Escaping never shortens a string. */
  lemma {:induction false} BodyNotShorter(s: Bytes, f: WriteFlags)
    requires WellFormed(s)
    ensures |Body(s, f, NO_HEX)| >= |s|
  {
    if s != [] {
      ValidFits(s, 0);
      SizeAtIsExact(s, f);
      hide ValidAt, EscapeScalar, DecodeHead;
      BodyNotShorter(s[SeqLen(s[0])..], f);
    }
  }

  lemma AsciiIsValid(s: Bytes, i: nat)
    requires i < |s| && s[i] < 0x80
    ensures ValidAt(s, i)
  {
  }

  lemma NotWellFormedAt(s: Bytes, i: nat)
    requires i < |s| && WellFormed(s[..i]) && !ValidAt(s, i)
    ensures !WellFormed(s)
  {
    hide WellFormed, ValidAt;
    ChunkBoundary(s, i, 0, WriteFlags(false, false));
    WellFormedStep(s, i);
  }

  // ---------------------------------------------------------------- one large string

  /** A clean string between quotes. */
  method AppendClean(buf: SmartStr, s: Bytes, f: WriteFlags)
    requires buf.Valid() && WordScan.Clean(s, 0, |s|, f.escapeSlashes)
    requires buf.len + |s| + 2 <= buf.data.Length
    modifies buf`len, buf.data
    ensures buf.Valid()
    ensures WellFormed(s) && buf.Contents() == old(buf.Contents()) + Quoted(s, f, NO_HEX)
  {
    hide WellFormed, Body;
    CleanBody(s, f);
    CopyInto(buf.data, buf.len, [QUOTE] + s + [QUOTE]);
    buf.len := buf.len + |s| + 2;
  }

  lemma CleanPrefix(s: Bytes, n: nat, f: WriteFlags)
    requires n <= |s| && WordScan.Clean(s, 0, n, f.escapeSlashes)
    ensures WellFormed(s) == WellFormed(s[n..])
    ensures Quoted(s, f, NO_HEX) == [QUOTE] + s[..n] + Quoted(s[n..], f, NO_HEX)[1..]
  {
    hide WellFormed, Body;
    CleanBody(s[..n], f);
    hide WordScan.Clean;
    assert s == s[..n] + s[n..];
    WellFormedAppend(s[..n], s[n..]);
    BodyAppend(s[..n], s[n..], f, NO_HEX);
    assert Body(s, f, NO_HEX) == s[..n] + Body(s[n..], f, NO_HEX);
    QuotedSplits(s[..n], Body(s[n..], f, NO_HEX));
  }

  lemma QuotedSplits(a: Bytes, b: Bytes)
    ensures [QUOTE] + (a + b) + [QUOTE] == [QUOTE] + a + (b + [QUOTE])
    ensures ([QUOTE] + b + [QUOTE])[1..] == b + [QUOTE]
  {
  }

  /** The escaped tail, shifted left over its own opening quote so that it continues the copied prefix. */
  method WriteTail(buf: SmartStr, at: nat, tail: Bytes, f: WriteFlags) returns (ok: bool)
    requires buf.Valid() && buf.len <= at && at + 6 * |tail| + 2 <= buf.data.Length
    modifies buf`len, buf.data
    ensures buf.Valid() && ok == WellFormed(tail)
    ensures ok ==> buf.Contents() == old(buf.data[..at]) + Quoted(tail, f, NO_HEX)[1..]
    ensures !ok ==> buf.Contents() == old(buf.Contents())
  {
    hide WellFormed, Body;
    QuotedSize(tail, f);
    var end := WriteStringToBuf(buf.data, at, tail, f);
    if end.None? {
      assert buf.data[..at][..buf.len] == old(buf.data[..at])[..buf.len];
      return false;
    }
    assert buf.data[at + 1..end.value] == buf.data[at..end.value][1..];
    CopyInto(buf.data, at, buf.data[at + 1..end.value]);
    buf.len := end.value - 1;
    return true;
  }

  /** A copied prefix, then the tail. */
  method WritePrefixAndTail(buf: SmartStr, s: Bytes, n: nat, f: WriteFlags) returns (status: SizeStatus)
    requires buf.Valid() && n <= |s| && WordScan.Clean(s, 0, n, f.escapeSlashes)
    modifies buf`len, buf`data, buf.data
    ensures buf.Valid() && (buf.data == old(buf.data) || fresh(buf.data))
    ensures Appended(status, old(buf.Contents()), buf.Contents(), s, f)
    ensures status.TooLarge? <==> old(buf.len) + n + 3 + 6 * (|s| - n) > buf.maxLen
  {
    hide WellFormed, Body;
    CleanPrefix(s, n, f);
    var tailLen := |s| - n;
    if buf.len + n + 3 + 6 * tailLen > buf.maxLen {
      return TooLarge;
    }
    buf.Alloc(n + tailLen * 6 + 3);
    ghost var before := buf.Contents();
    CopyInto(buf.data, buf.len, [QUOTE] + s[..n]);
    assert buf.data[..buf.len + n + 1][..buf.len] == before;
    ConcatAssociates(before, [QUOTE] + s[..n], Quoted(s[n..], f, NO_HEX)[1..]);
    var ok := WriteTail(buf, buf.len + n + 1, s[n..], f);
    return if ok then Fine else InvalidUtf8;
  }

  /** The measured string written into exactly the room it needs. */
  method WriteMeasured(buf: SmartStr, s: Bytes, f: WriteFlags) returns (status: SizeStatus)
    requires buf.Valid()
    modifies buf`len, buf`data, buf.data
    ensures buf.Valid() && (buf.data == old(buf.data) || fresh(buf.data))
    ensures Appended(status, old(buf.Contents()), buf.Contents(), s, f)
    ensures status.TooLarge? ==> old(buf.len) + |Quoted(s, f, NO_HEX)| > buf.maxLen
  {
    hide WellFormed, Body;
    var exactLen, copyable;
    status, exactLen, copyable := JsonStringSize(s, f, buf.maxLen);
    if !status.Fine? {
      return;
    }
    if buf.len + exactLen > buf.maxLen {
      return TooLarge;
    }
    buf.Alloc(exactLen);
    if copyable {
      CleanBody(s, f);
      AppendClean(buf, s, f);
      return Fine;
    }
    ghost var before := buf.Contents();
    var end := WriteStringToBuf(buf.data, buf.len, s, f);
    assert buf.data[..end.value] == before + Quoted(s, f, NO_HEX);
    buf.len := end.value;
    return Fine;
  }

  lemma CopiedSoFar(before: Bytes, s: Bytes, pos: nat, n: nat)
    requires pos + n <= |s|
    ensures before + [QUOTE] + s[..pos] + s[pos..pos + n] == before + [QUOTE] + s[..pos + n]
  {
    assert s[..pos + n] == s[..pos] + s[pos..pos + n];
  }

  /** Eight clean bytes at a time into scratch space; the visible length does not move. */
  method CopyCleanWords(buf: SmartStr, s: Bytes, f: WriteFlags) returns (pos: nat)
    requires buf.Valid() && buf.len + |s| + 2 <= buf.data.Length
    modifies buf.data
    ensures buf.Valid() && pos <= |s| && WordScan.Clean(s, 0, pos, f.escapeSlashes)
    ensures buf.data[..buf.len + 1 + pos] == old(buf.Contents()) + [QUOTE] + s[..pos]
  {
    var cur := buf.len;
    ghost var before := buf.Contents();
    CopyInto(buf.data, cur, [QUOTE]);
    pos := 0;
    assert s[..0] == [] && before + [QUOTE] == before + [QUOTE] + [];
    while pos + 8 <= |s|
      invariant pos <= |s| && WordScan.Clean(s, 0, pos, f.escapeSlashes)
      invariant buf.data[..cur + 1 + pos] == before + [QUOTE] + s[..pos]
    {
      var needs := WordScan.AsciiWordNeedsEscape(s, pos, f.escapeSlashes);
      if needs {
        break;
      }
      CopiedSoFar(before, s, pos, 8);
      CopyInto(buf.data, cur + 1 + pos, s[pos..pos + 8]);
      pos := pos + 8;
    }
  }

  /** The clean bytes that remain, one at a time, up to the first that needs an escape. */
  method CopyCleanBytes(buf: SmartStr, s: Bytes, from: nat, f: WriteFlags, ghost before: Bytes) returns (pos: nat)
    requires buf.Valid() && buf.len + |s| + 2 <= buf.data.Length
    requires from <= |s| && WordScan.Clean(s, 0, from, f.escapeSlashes)
    requires buf.data[..buf.len + 1 + from] == before + [QUOTE] + s[..from]
    modifies buf.data
    ensures from <= pos <= |s|
    ensures pos == |s| <==> WordScan.Clean(s, 0, |s|, f.escapeSlashes)
    ensures buf.data[..buf.len + 1 + pos] == before + [QUOTE] + s[..pos]
  {
    pos := from;
    while pos < |s|
      invariant from <= pos <= |s| && WordScan.Clean(s, 0, pos, f.escapeSlashes)
      invariant buf.data[..buf.len + 1 + pos] == before + [QUOTE] + s[..pos]
    {
      if WordScan.ByteNeedsEscape(s[pos], f.escapeSlashes) {
        return;
      }
      CopiedSoFar(before, s, pos, 1);
      CopyInto(buf.data, buf.len + 1 + pos, [s[pos]]);
      pos := pos + 1;
    }
  }

  /** One fused scan and copy for clean strings; anything else is measured first. */
  method WriteFused(buf: SmartStr, s: Bytes, f: WriteFlags) returns (status: SizeStatus)
    requires buf.Valid()
    modifies buf`len, buf`data, buf.data
    ensures buf.Valid() && (buf.data == old(buf.data) || fresh(buf.data))
    ensures Appended(status, old(buf.Contents()), buf.Contents(), s, f)
    ensures status.TooLarge? ==> old(buf.len) + |Quoted(s, f, NO_HEX)| > buf.maxLen
    ensures WordScan.Clean(s, 0, |s|, f.escapeSlashes) ==> status.Fine?
  {
    hide WellFormed, Body;
    ghost var before := buf.Contents();
    buf.Alloc(|s| + 2);
    var pos := CopyCleanWords(buf, s, f);
    pos := CopyCleanBytes(buf, s, pos, f, before);
    assert buf.Contents() == before by {
      assert buf.data[..buf.len + 1 + pos][..buf.len] == buf.Contents();
    }
    if pos == |s| {
      CleanBody(s, f);
      assert s[..pos] == s;
      CopyInto(buf.data, buf.len + 1 + pos, [QUOTE]);
      buf.len := buf.len + |s| + 2;
      QuotedConcat(before, s, f);
      return Fine;
    }
    status := WriteMeasured(buf, s, f);
  }

  /** The sized writer: four strategies, one result. */
  method WriteLargeJsonString(buf: SmartStr, s: Bytes, f: WriteFlags, t: Tuning) returns (status: SizeStatus)
    requires buf.Valid() && t.chunk > 0
    modifies buf`len, buf`data, buf.data
    ensures buf.Valid() && (buf.data == old(buf.data) || fresh(buf.data))
    ensures Appended(status, old(buf.Contents()), buf.Contents(), s, f)
    ensures old(buf.len) + Headroom(|s|, t) <= buf.maxLen ==> !status.TooLarge?
    ensures WordScan.Clean(s, 0, |s|, f.escapeSlashes) ==> (status.TooLarge? <==> old(buf.len) + |s| + 2 > buf.maxLen)
    ensures status.TooLarge? && WellFormed(s) && |s| >= t.exactFrom ==>
            old(buf.len) + |Quoted(s, f, NO_HEX)| > buf.maxLen
  {
    QuotedSize(s, f);
    if WellFormed(s) {
      BodyNotShorter(s, f);
    }
    hide WellFormed, Body;
    if buf.len + 2 + |s| > buf.maxLen {
      return TooLarge;
    }
    if |s| < t.exactFrom {
      var clean, prefixLen := WordScan.IsCopyableAscii(s, f.escapeSlashes);
      if clean {
        buf.Alloc(|s| + 2);
        AppendClean(buf, s, f);
        return Fine;
      }
      if prefixLen >= |s| - |s| / 8 {
        status := WritePrefixAndTail(buf, s, prefixLen, f);
        return;
      }
      status := WriteJsonStringChunked(buf, s, f, t.chunk);
      return;
    }
    status := WriteFused(buf, s, f);
  }

  /** Which strings take the sized writer: a matter of the buffer's headroom, never of the output. */
  predicate WantsSizedWriter(buf: SmartStr, n: nat, t: Tuning)
    reads buf
  {
    n >= t.sizedFrom && (n >= t.sizedAlways || buf.data.Length <= buf.len + n * 6 + 2)
  }

  /** Appends one JSON string by whichever writer the sizes ask for. */
  method WriteString(buf: SmartStr, s: Bytes, f: WriteFlags, t: Tuning) returns (status: SizeStatus)
    requires buf.Valid() && t.chunk > 0
    modifies buf`len, buf`data, buf.data
    ensures buf.Valid() && (buf.data == old(buf.data) || fresh(buf.data))
    ensures Appended(status, old(buf.Contents()), buf.Contents(), s, f)
    ensures old(buf.len) + Headroom(|s|, t) <= buf.maxLen ==> !status.TooLarge?
  {
    hide WellFormed, Body;
    if WantsSizedWriter(buf, |s|, t) {
      status := WriteLargeJsonString(buf, s, f, t);
      return;
    }
    var ok := buf.Reserve(|s| * 6 + 2);
    if !ok {
      return TooLarge;
    }
    QuotedSize(s, f);
    ghost var before := buf.Contents();
    var end := WriteStringToBuf(buf.data, buf.len, s, f);
    if end.None? {
      return InvalidUtf8;
    }
    assert buf.data[..end.value] == before + Quoted(s, f, NO_HEX);
    buf.len := end.value;
    return Fine;
  }
}
