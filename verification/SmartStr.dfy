/** The growable output buffer: PHP's `smart_str`. */
module SmartStr {
  import opened ByteStrings

  class SmartStr {
    /** The longest string the engine can hold (`ZSTR_MAX_LEN`). */
    const maxLen: nat

    /** The allocation; `data.Length` is the capacity. */
    var data: array<Byte>

    /** The visible length. Bytes past it are scratch space. */
    var len: nat

    ghost predicate Valid()
      reads this
    {
      len <= data.Length
    }

    ghost function Contents(): (s: Bytes)
      requires Valid()
      reads this, data
    {
      data[..len]
    }

    constructor (maxLen: nat)
      ensures Valid() && fresh(data) && Contents() == [] && this.maxLen == maxLen
    {
      this.maxLen := maxLen;
      data := new Byte[256](_ => 0);
      len := 0;
    }

    /** Makes room for `add` more bytes. Only the visible bytes survive a move to a larger allocation. */
    method Alloc(add: nat)
      requires Valid()
      modifies this`data
      ensures Valid() && len + add <= data.Length
      ensures data == old(data) || fresh(data)
      ensures Contents() == old(Contents())
    {
      if len + add >= data.Length {
        var capacity :| capacity > len + add;
        var grown := new Byte[capacity](_ => 0);
        CopyInto(grown, 0, data[..len]);
        data := grown;
      }
    }

    /** `smart_str_appendl` */
    method Append(s: Bytes)
      requires Valid()
      modifies this`len, this`data, data
      ensures Valid() && (data == old(data) || fresh(data))
      ensures Contents() == old(Contents()) + s
    {
      Alloc(|s|);
      CopyInto(data, len, s);
      len := len + |s|;
    }

    /** Writes one byte into room already made for it. */
    method Push(b: Byte)
      requires Valid() && len < data.Length
      modifies this`len, data
      ensures Valid() && len == old(len) + 1
      ensures Contents() == old(Contents()) + [b]
    {
      data[len] := b;
      len := len + 1;
    }

    /** Takes back everything after the first `n` visible bytes. */
    method Truncate(n: nat)
      requires Valid() && n <= len
      modifies this`len
      ensures Valid() && len == n
      ensures Contents() == old(Contents())[..n]
    {
      len := n;
    }

    /** `smart_str_free` */
    method Free()
      requires Valid()
      modifies this`len, this`data
      ensures Valid() && fresh(data) && Contents() == []
    {
      data := new Byte[0];
      len := 0;
    }

    /** Room for `add` more bytes within the longest string, or `false` and nothing changed. */
    method Reserve(add: nat) returns (ok: bool)
      requires Valid()
      modifies this`data
      ensures Valid() && (data == old(data) || fresh(data))
      ensures Contents() == old(Contents())
      ensures ok <==> len + add <= maxLen
      ensures ok ==> len + add <= data.Length
    {
      if len + add > maxLen {
        return false;
      }
      Alloc(add);
      return true;
    }

    /** A newline and four spaces a level: one block for deep levels, level by level otherwise. */
    method AppendNewlineIndent(level: nat)
      requires Valid()
      modifies this`len, this`data, data
      ensures Valid() && (data == old(data) || fresh(data))
      ensures Contents() == old(Contents()) + ([NEWLINE] + Spaces(4 * level))
    {
      ghost var before := Contents();
      if level > 8 && level <= (maxLen - 1) / 4 {
        Append([NEWLINE]);
        Append(Spaces(4 * level));
        return;
      }
      Append([NEWLINE]);
      for i := 0 to level
        invariant Valid() && (data == old(data) || fresh(data))
        invariant Contents() == before + ([NEWLINE] + Spaces(4 * i))
      {
        Append(Spaces(4));
        assert Spaces(4 * i) + Spaces(4) == Spaces(4 * (i + 1));
      }
    }

    /** The comma and newline before a container's next element. */
    method AppendLead(first: bool, pretty: bool, level: nat)
      requires Valid()
      modifies this`len, this`data, data
      ensures Valid() && (data == old(data) || fresh(data))
      ensures Contents() == old(Contents())
                            + ((if first then [] else [COMMA]) + if pretty then [NEWLINE] + Spaces(4 * level) else [])
    {
      if !first {
        Append([COMMA]);
      }
      if pretty {
        AppendNewlineIndent(level);
      }
    }

    /** An opening bracket; what follows it sits one level deeper if it goes on a line of its own. */
    method OpenBracket(bracket: Byte, deeper: bool, level: nat) returns (inner: nat)
      requires Valid()
      modifies this`len, this`data, data
      ensures Valid() && (data == old(data) || fresh(data))
      ensures Contents() == old(Contents()) + [bracket]
      ensures inner == if deeper then level + 1 else level
    {
      Append([bracket]);
      return if deeper then level + 1 else level;
    }

    /** Back out one level, if there is one to back out of, and close. */
    method CloseBracket(bracket: Byte, deeper: bool, inner: nat) returns (level: nat)
      requires Valid() && (deeper ==> inner > 0)
      modifies this`len, this`data, data
      ensures Valid() && (data == old(data) || fresh(data))
      ensures level == if deeper then inner - 1 else inner
      ensures Contents() == old(Contents()) + ((if deeper then [NEWLINE] + Spaces(4 * level) else []) + [bracket])
    {
      level := inner;
      if deeper {
        level := inner - 1;
        AppendNewlineIndent(level);
      }
      Append([bracket]);
    }
  }
}
