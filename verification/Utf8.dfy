/** UTF-8: the definition of section 4 of RFC 3629, and the two places of the extension that only decide it. */
module Utf8 {
  import opened ByteStrings
  import WordScan

  // ---------------------------------------------------------------- definition

  type Scalar = x: int | 0 <= x <= 0x10FFFF && !(0xD800 <= x <= 0xDFFF)

  function Encode(cp: Scalar): (r: Bytes)
    ensures 1 <= |r| <= 4
  {
    if cp < 0x80 then [cp]
    else if cp < 0x800 then [0xC0 + cp / 64, 0x80 + cp % 64]
    else if cp < 0x10000 then [0xE0 + cp / 64 / 64, 0x80 + cp / 64 % 64, 0x80 + cp % 64]
    else [0xF0 + cp / 64 / 64 / 64, 0x80 + cp / 64 / 64 % 64, 0x80 + cp / 64 % 64, 0x80 + cp % 64]
  }

  function EncodeAll(cps: seq<Scalar>): Bytes {
    if cps == [] then [] else Encode(cps[0]) + EncodeAll(cps[1..])
  }

  predicate Tail(b: int) {
    0x80 <= b <= 0xBF
  }

  /** How many bytes a sequence that begins with `lead` has, if it is valid. */
  function SeqLen(lead: Byte): (n: nat)
    ensures 1 <= n <= 4
  {
    if lead < 0x80 then 1 else if lead < 0xE0 then 2 else if lead < 0xF0 then 3 else 4
  }

  /** The second byte of a three- or four-byte sequence, given its lead. */
  predicate SecondByte(c0: Byte, c1: Byte) {
    (if c0 == 0xE0 then 0xA0 else if c0 == 0xF0 then 0x90 else 0x80) <= c1
    <= (if c0 == 0xED then 0x9F else if c0 == 0xF4 then 0x8F else 0xBF)
  }

  /** The grammar of RFC 3629, section 4: a valid sequence begins at `pos`. */
  predicate ValidAt(s: Bytes, pos: nat)
  {
    && pos < |s|
    && var c0 := s[pos];
       || c0 < 0x80
       || (0xC2 <= c0 <= 0xDF && pos + 1 < |s| && Tail(s[pos + 1]))
       || (0xE0 <= c0 <= 0xEF && pos + 2 < |s| && SecondByte(c0, s[pos + 1]) && Tail(s[pos + 2]))
       || (0xF0 <= c0 <= 0xF4 && pos + 3 < |s| && SecondByte(c0, s[pos + 1]) && Tail(s[pos + 2]) && Tail(s[pos + 3]))
  }

  lemma ValidFits(s: Bytes, pos: nat)
    requires ValidAt(s, pos)
    ensures pos + SeqLen(s[pos]) <= |s|
    ensures forall k :: pos < k < pos + SeqLen(s[pos]) ==> Tail(s[k])
  {
  }

  // The payload bits of two, three and four bytes: masks and shifts written out.

  function Bits2(c0: int, c1: int): int {
    c0 % 32 * 64 + c1 % 64
  }

  function Bits3(c0: int, c1: int, c2: int): int {
    (c0 % 16 * 64 + c1 % 64) * 64 + c2 % 64
  }

  function Bits4(c0: int, c1: int, c2: int, c3: int): int {
    ((c0 % 8 * 64 + c1 % 64) * 64 + c2 % 64) * 64 + c3 % 64
  }

  lemma SixBits(hi: nat, lo: nat)
    requires lo < 64
    ensures (hi * 64 + lo) / 64 == hi && (hi * 64 + lo) % 64 == lo
  {
  }

  lemma Bits3Ranges(c0: int, c1: int, c2: int)
    requires 0xE0 <= c0 < 0xF0 && Tail(c1) && Tail(c2)
    ensures Bits3(c0, c1, c2) < 0x800 <==> c0 == 0xE0 && c1 < 0xA0
    ensures 0xD800 <= Bits3(c0, c1, c2) <= 0xDFFF <==> c0 == 0xED && c1 >= 0xA0
  {
  }

  lemma Bits4Ranges(c0: int, c1: int, c2: int, c3: int)
    requires 0xF0 <= c0 < 0xF5 && Tail(c1) && Tail(c2) && Tail(c3)
    ensures Bits4(c0, c1, c2, c3) < 0x10000 <==> c0 == 0xF0 && c1 < 0x90
    ensures Bits4(c0, c1, c2, c3) > 0x10FFFF <==> c0 == 0xF4 && c1 >= 0x90
  {
  }

  lemma Payload(c: Byte)
    ensures Tail(c) ==> c == 0x80 + c % 64
    ensures 0xC0 <= c < 0xE0 ==> c == 0xC0 + c % 32
    ensures 0xE0 <= c < 0xF0 ==> c == 0xE0 + c % 16
    ensures 0xF0 <= c < 0xF8 ==> c == 0xF0 + c % 8
  {
  }

  lemma EncodeParts3(a: nat, b: nat, c: nat)
    requires b < 64 && c < 64
    requires 0x800 <= (a * 64 + b) * 64 + c < 0x10000
    requires !(0xD800 <= (a * 64 + b) * 64 + c <= 0xDFFF)
    ensures a < 16 && Encode((a * 64 + b) * 64 + c) == [0xE0 + a, 0x80 + b, 0x80 + c]
  {
    SixBits(a * 64 + b, c);
    SixBits(a, b);
  }

  lemma EncodeParts4(a: nat, b: nat, c: nat, d: nat)
    requires b < 64 && c < 64 && d < 64
    requires 0x10000 <= ((a * 64 + b) * 64 + c) * 64 + d <= 0x10FFFF
    ensures a < 5 && Encode(((a * 64 + b) * 64 + c) * 64 + d) == [0xF0 + a, 0x80 + b, 0x80 + c, 0x80 + d]
  {
    SixBits((a * 64 + b) * 64 + c, d);
    SixBits(a * 64 + b, c);
    SixBits(a, b);
  }

  lemma EncodeBits2(c0: Byte, c1: Byte)
    requires 0xC2 <= c0 <= 0xDF && Tail(c1)
    ensures 0x80 <= Bits2(c0, c1) < 0x800 && Encode(Bits2(c0, c1)) == [c0, c1]
  {
    Payload(c0); Payload(c1);
    SixBits(c0 % 32, c1 % 64);
  }

  lemma EncodeBits3(c0: Byte, c1: Byte, c2: Byte)
    requires 0xE0 <= c0 <= 0xEF && Tail(c1) && Tail(c2)
    requires c0 == 0xE0 ==> c1 >= 0xA0
    requires c0 == 0xED ==> c1 < 0xA0
    ensures 0x800 <= Bits3(c0, c1, c2) < 0x10000 && !(0xD800 <= Bits3(c0, c1, c2) <= 0xDFFF)
    ensures Encode(Bits3(c0, c1, c2)) == [c0, c1, c2]
  {
    Bits3Ranges(c0, c1, c2);
    Payload(c0); Payload(c1); Payload(c2);
    EncodeParts3(c0 % 16, c1 % 64, c2 % 64);
  }

  lemma EncodeBits4(c0: Byte, c1: Byte, c2: Byte, c3: Byte)
    requires 0xF0 <= c0 <= 0xF4 && Tail(c1) && Tail(c2) && Tail(c3)
    requires c0 == 0xF0 ==> c1 >= 0x90
    requires c0 == 0xF4 ==> c1 < 0x90
    ensures 0x10000 <= Bits4(c0, c1, c2, c3) <= 0x10FFFF
    ensures Encode(Bits4(c0, c1, c2, c3)) == [c0, c1, c2, c3]
  {
    Bits4Ranges(c0, c1, c2, c3);
    Payload(c0); Payload(c1); Payload(c2); Payload(c3);
    EncodeParts4(c0 % 8, c1 % 64, c2 % 64, c3 % 64);
  }

  /** The scalar value of the valid sequence at the head of `s`. */
  function DecodeHead(s: Bytes): (cp: Scalar)
    requires ValidAt(s, 0)
    ensures Encode(cp) == s[..SeqLen(s[0])]
  {
    if s[0] < 0x80 then s[0]
    else if s[0] < 0xE0 then EncodeBits2(s[0], s[1]); Bits2(s[0], s[1])
    else if s[0] < 0xF0 then EncodeBits3(s[0], s[1], s[2]); Bits3(s[0], s[1], s[2])
    else EncodeBits4(s[0], s[1], s[2], s[3]); Bits4(s[0], s[1], s[2], s[3])
  }

  /** The table of section 3 of RFC 3629, read backwards: how long an encoding is, and that its bits spell `cp`. */
  lemma EncodingSpells(cp: Scalar)
    ensures var r := Encode(cp); 1 <= |r| <= 4
    ensures |Encode(cp)| == if cp <= 0x7F then 1 else if cp <= 0x7FF then 2 else if cp <= 0xFFFF then 3 else 4
    ensures forall k :: 0 < k < |Encode(cp)| ==> 0x80 <= Encode(cp)[k] <= 0xBF
    ensures var r := Encode(cp);
            match |r|
            case 1 => r[0] == cp
            case 2 => 0xC2 <= r[0] <= 0xDF && 64 * (r[0] as int - 0xC0) + (r[1] as int - 0x80) == cp
            case 3 => 0xE0 <= r[0] <= 0xEF
                      && 64 * (64 * (r[0] as int - 0xE0) + (r[1] as int - 0x80)) + (r[2] as int - 0x80) == cp
            case _ => 0xF0 <= r[0] <= 0xF4
                      && 64 * (64 * (64 * (r[0] as int - 0xF0) + (r[1] as int - 0x80)) + (r[2] as int - 0x80))
                         + (r[3] as int - 0x80) == cp
  {
  }

  lemma EncodedIsValid(cp: Scalar, rest: Bytes)
    ensures ValidAt(Encode(cp) + rest, 0)
    ensures SeqLen((Encode(cp) + rest)[0]) == |Encode(cp)|
  {
  }

  predicate WellFormed(s: Bytes) {
    s == [] || (ValidAt(s, 0) && |s| >= SeqLen(s[0]) && WellFormed(s[SeqLen(s[0])..]))
  }

  /** A string is well-formed iff it encodes some sequence of scalar values. */
  lemma {:induction false} EncodedIsWellFormed(cps: seq<Scalar>)
    ensures WellFormed(EncodeAll(cps))
  {
    if cps != [] {
      EncodedIsValid(cps[0], EncodeAll(cps[1..]));
      EncodedIsWellFormed(cps[1..]);
      assert EncodeAll(cps)[|Encode(cps[0])|..] == EncodeAll(cps[1..]);
    }
  }

  function DecodeAll(s: Bytes): (cps: seq<Scalar>)
    requires WellFormed(s)
    ensures EncodeAll(cps) == s
  {
    if s == [] then []
    else
      var n := SeqLen(s[0]);
      assert s == s[..n] + s[n..];
      [DecodeHead(s)] + DecodeAll(s[n..])
  }

  lemma WellFormedIffEncoded(s: Bytes)
    ensures WellFormed(s) <==> exists cps :: EncodeAll(cps) == s
  {
    if WellFormed(s) {
      assert EncodeAll(DecodeAll(s)) == s;
    }
    forall cps | EncodeAll(cps) == s ensures WellFormed(s) {
      EncodedIsWellFormed(cps);
    }
  }

  lemma ValidAtShift(s: Bytes, i: nat, pos: nat)
    requires i + pos < |s|
    ensures ValidAt(s[i..], pos) == ValidAt(s, i + pos)
  {
  }

  lemma ValidAtPrefix(a: Bytes, b: Bytes)
    requires ValidAt(a, 0)
    ensures ValidAt(a + b, 0) && SeqLen((a + b)[0]) == SeqLen(a[0]) <= |a|
    ensures (a + b)[..SeqLen(a[0])] == a[..SeqLen(a[0])]
    ensures (a + b)[SeqLen(a[0])..] == a[SeqLen(a[0])..] + b
  {
    ValidFits(a, 0);
  }

  lemma {:induction false} WellFormedAppend(a: Bytes, b: Bytes)
    requires WellFormed(a)
    ensures WellFormed(a + b) == WellFormed(b)
  {
    if a == [] {
      assert a + b == b;
    } else {
      ValidAtPrefix(a, b);
      WellFormedAppend(a[SeqLen(a[0])..], b);
    }
  }

  lemma {:induction false} AsciiIsWellFormed(s: Bytes)
    requires forall k :: 0 <= k < |s| ==> s[k] < 0x80
    ensures WellFormed(s)
  {
    if s != [] {
      AsciiIsWellFormed(s[1..]);
    }
  }

  lemma WellFormedSkipsAscii(s: Bytes, i: nat, j: nat)
    requires i <= j <= |s| && WordScan.Ascii(s, i, j)
    ensures WellFormed(s[i..]) == WellFormed(s[j..])
  {
    assert s[i..] == s[i..j] + s[j..];
    AsciiIsWellFormed(s[i..j]);
    WellFormedAppend(s[i..j], s[j..]);
  }

  lemma EmptyIsWellFormed()
    ensures WellFormed([])
  {
  }

  /** One step of a scan that has reached position `i`. */
  lemma WellFormedStep(s: Bytes, i: nat)
    requires i < |s|
    ensures WellFormed(s[i..]) <==> ValidAt(s, i) && i + SeqLen(s[i]) <= |s| && WellFormed(s[i + SeqLen(s[i])..])
  {
    ValidAtShift(s, i, 0);
    if i + SeqLen(s[i]) <= |s| {
      assert s[i..][SeqLen(s[i])..] == s[i + SeqLen(s[i])..];
    }
  }

  // ---------------------------------------------------------------- deciders

  /** The single-position decider. */
  method ByteIsValidUtf8Start(s: Bytes, pos: nat) returns (valid: bool)
    ensures valid == ValidAt(s, pos)
  {
    if pos >= |s| { return false; }
    var c0 := s[pos];
    if c0 < 0x80 { return true; }
    if c0 < 0xC2 { return false; }
    var need: nat;
    if c0 < 0xE0 { need := 1; }
    else if c0 < 0xF0 { need := 2; }
    else if c0 < 0xF5 { need := 3; }
    else { return false; }
    if pos + need >= |s| { return false; }
    for i := 1 to need + 1
      invariant forall k :: pos < k < pos + i ==> Tail(s[k])
    {
      if s[pos + i] / 64 != 2 {
        assert !Tail(s[pos + i]);
        return false;
      }
    }
    var c1 := s[pos + 1];
    assert Tail(s[pos + 1]) && (need >= 2 ==> Tail(s[pos + 2])) && (need >= 3 ==> Tail(s[pos + 3]));
    if need == 2 {
      if c0 == 0xE0 && c1 < 0xA0 { return false; }
      if c0 == 0xED && c1 >= 0xA0 { return false; }
    } else if need == 3 {
      if c0 == 0xF0 && c1 < 0x90 { return false; }
      if c0 == 0xF4 && c1 >= 0x90 { return false; }
    }
    return true;
  }

  /** One turn of the whole-string decider: whether a sequence begins at `i`, and its length. */
  method SequenceAt(s: Bytes, i: nat) returns (valid: bool, n: nat)
    requires i < |s|
    ensures valid == ValidAt(s, i)
    ensures valid ==> n == SeqLen(s[i]) && i + n <= |s|
  {
    var c := s[i];
    if c < 0x80 {
      return true, 1;
    } else if c < 0xC2 {
      return false, 1;
    } else if c < 0xE0 {
      if i + 1 >= |s| { return false, 1; }
      if !Tail(s[i + 1]) { return false, 1; }
      return Bits2(c, s[i + 1]) >= 0x80, 2;
    } else if c < 0xF0 {
      if i + 3 > |s| { return false, 1; }
      if !Tail(s[i + 1]) || !Tail(s[i + 2]) { return false, 1; }
      var cp := Bits3(c, s[i + 1], s[i + 2]);
      Bits3Ranges(c, s[i + 1], s[i + 2]);
      if cp < 0x800 { return false, 1; }
      if 0xD800 <= cp <= 0xDFFF { return false, 1; }
      return true, 3;
    } else if c < 0xF5 {
      if i + 4 > |s| { return false, 1; }
      if !Tail(s[i + 1]) || !Tail(s[i + 2]) || !Tail(s[i + 3]) { return false, 1; }
      var cp := Bits4(c, s[i + 1], s[i + 2], s[i + 3]);
      Bits4Ranges(c, s[i + 1], s[i + 2], s[i + 3]);
      if cp < 0x10000 || cp > 0x10FFFF { return false, 1; }
      return true, 4;
    } else {
      return false, 1;
    }
  }

  /** The whole-string decider, with its eight-byte skip over a leading ASCII run. */
  method Utf8WellFormed(s: Bytes) returns (ok: bool)
    ensures ok == WellFormed(s)
  {
    hide ValidAt;
    var i := 0;
    while i + 8 <= |s|
      invariant i <= |s|
      invariant WellFormed(s) == WellFormed(s[i..])
    {
      var high := WordScan.WordHasHigh(s, i);
      if high { break; }
      WellFormedSkipsAscii(s, i, i + 8);
      i := i + 8;
    }
    while i < |s|
      invariant i <= |s|
      invariant WellFormed(s) == WellFormed(s[i..])
    {
      WellFormedStep(s, i);
      var valid, n := SequenceAt(s, i);
      if !valid { return false; }
      i := i + n;
    }
    return true;
  }
}
