/** Byte strings: the `char *` and `size_t` pairs every part of the extension works on. */
module ByteStrings {

  type Byte = x: int | 0 <= x < 256

  type Bytes = seq<Byte>

  const NEWLINE: Byte := 0x0A
  const SPACE: Byte := 0x20
  const QUOTE: Byte := 0x22
  const AMPERSAND: Byte := 0x26
  const APOSTROPHE: Byte := 0x27
  const COMMA: Byte := 0x2C
  const SLASH: Byte := 0x2F
  const DIGIT_0: Byte := 0x30
  const DIGIT_1: Byte := 0x31
  const DIGIT_9: Byte := 0x39
  const COLON: Byte := 0x3A
  const LESS_THAN: Byte := 0x3C
  const GREATER_THAN: Byte := 0x3E
  const LEFT_BRACKET: Byte := 0x5B
  const BACKSLASH: Byte := 0x5C
  const RIGHT_BRACKET: Byte := 0x5D
  const LEFT_BRACE: Byte := 0x7B
  const RIGHT_BRACE: Byte := 0x7D
  const TILDE: Byte := 0x7E

  /** The i-th byte when there is one, and a value no byte equals otherwise. */
  function At(s: Bytes, i: nat): int {
    if i < |s| then s[i] else -1
  }

  /** `n` copies of the space byte. */
  function Spaces(n: nat): (r: Bytes)
    ensures |r| == n
  {
    seq(n, _ => SPACE)
  }

  function Max(a: nat, b: nat): nat {
    if a < b then b else a
  }

  lemma ConcatAssociates(a: Bytes, b: Bytes, c: Bytes)
    ensures a + (b + c) == (a + b) + c
  {
  }

  /** `memcpy` into a buffer. */
  method CopyInto(dst: array<Byte>, at: nat, src: Bytes)
    requires at + |src| <= dst.Length
    modifies dst
    ensures dst[..at] == old(dst[..at])
    ensures dst[at..at + |src|] == src
    ensures dst[..at + |src|] == old(dst[..at]) + src
    ensures forall k :: 0 <= k < at || at + |src| <= k < dst.Length ==> dst[k] == old(dst[k])
  {
    for k := 0 to |src|
      invariant forall j :: 0 <= j < at || at + k <= j < dst.Length ==> dst[j] == old(dst[j])
      invariant dst[at..at + k] == src[..k]
    {
      dst[at + k] := src[k];
    }
  }
}
