/**
 * The one-pass splice writer: it prints a parsed document with one value replaced or added, without ever
 * building the edited tree. What it prints is that tree's own text.
 */
module Splice {
  import opened ByteStrings
  import opened Utf8
  import opened Escape
  import opened SmartStr
  import opened Json
  import opened PointerText
  import opened PointerTree
  import opened Sanitizer
  import opened Wrappers
  import Edits
  import HexEscapes
  import Reading
  import StringWriter

  /** A replacement is a scalar to print, or text the encoder has already produced at level zero. */
  datatype Replacement = Tree(v: Value) | Encoded(text: Bytes)

  function StatusOf(fault: Fault): SpliceStatus {
    match fault
    case NoFault => Ok
    case TooDeep => DepthFail
    case BadUtf8 => InvalidUtf8
    case NotFinite => InfOrNan
  }

  /** Room reserved for one number. */
  const NUM_WORST: nat := 40

  /** With this much room to spare nothing fails for its size, if no string or key has more than `n` bytes. */
  function Spare(n: nat, t: StringWriter.Tuning): nat {
    Max(StringWriter.Headroom(n, t), NUM_WORST)
  }

  class Writer {
    const buf: SmartStr
    const st: Style
    const tuning: StringWriter.Tuning
    const replacement: Replacement
    const segs: seq<Bytes>
    const sizeMax: nat

    var indent: nat
    var status: SpliceStatus
    var settable: bool

    /** The value the replacement stands for, and the depth limit of the whole document. */
    ghost const nv: Value
    ghost const limit: nat

    ghost predicate Valid()
      reads this, buf
    {
      && buf.Valid() && tuning.chunk > 0
      && match replacement
         case Tree(v) => v == nv
         case Encoded(text) =>
           && text == Print(nv, 0, st) && PlainNumbers(nv)
           && |segs| <= limit && FirstFault(nv, limit - |segs|) == NoFault
    }

    constructor (buf: SmartStr, st: Style, tuning: StringWriter.Tuning, replacement: Replacement, segs: seq<Bytes>,
                 sizeMax: nat, ghost nv: Value, ghost limit: nat)
      requires buf.Valid() && tuning.chunk > 0
      requires replacement.Tree? ==> replacement.v == nv
      requires replacement.Encoded? ==> replacement.text == Print(nv, 0, st) && PlainNumbers(nv)
      requires replacement.Encoded? ==> |segs| <= limit && FirstFault(nv, limit - |segs|) == NoFault
      ensures Valid() && this.buf == buf && this.st == st && this.segs == segs && this.sizeMax == sizeMax
      ensures this.tuning == tuning
      ensures this.replacement == replacement && this.nv == nv && this.limit == limit
      ensures indent == 0 && status == Ok && settable
    {
      this.buf, this.st, this.tuning, this.replacement, this.segs := buf, st, tuning, replacement, segs;
      this.sizeMax, this.nv, this.limit := sizeMax, nv, limit;
      indent, status, settable := 0, Ok, true;
    }

    /** `size` bytes more, with strings and keys of up to `longest` bytes among them, may be too many. */
    ghost predicate OutOfRoom(at: nat, size: nat, longest: nat) {
      at + size + Spare(longest, tuning) > buf.maxLen
    }

    /** Why a step has failed: for want of room, or for `fault`. */
    ghost predicate Blames(fault: Fault, at: nat, size: nat, longest: nat)
      reads this
    {
      if status == TooLarge then OutOfRoom(at, size, longest) else fault != NoFault && status == StatusOf(fault)
    }

    /**
     * What a step owes its caller: on success exactly `text` has been appended and the indentation is back
     * where it was; on failure the status says why, `fault` being the first reason there is. No string or
     * key in `text` has more than `longest` bytes.
     */
    twostate predicate Stepped(ok: bool, text: Bytes, fault: Fault, longest: nat)
      requires old(buf.Valid())
      reads this, buf, buf.data
    {
      && Valid() && (buf.data == old(buf.data) || fresh(buf.data))
      && (ok ==> buf.Contents() == old(buf.Contents()) + text && indent == old(indent) && status == old(status))
      && (ok ==> fault == NoFault)
      && (!ok ==> Blames(fault, old(buf.len), |text|, longest))
    }

    /** Raw text, with room reserved for it. */
    method Emit(text: Bytes) returns (ok: bool)
      requires Valid()
      modifies this`status, buf`len, buf`data, buf.data
      ensures Stepped(ok, text, NoFault, 0)
    {
      ok := buf.Reserve(|text|);
      if !ok {
        status := TooLarge;
        return;
      }
      buf.Append(text);
    }

    /** Punctuation, appended without a reservation of its own. */
    method Put(text: Bytes)
      requires Valid()
      modifies buf`len, buf`data, buf.data
      ensures Stepped(true, text, NoFault, 0)
    {
      buf.Append(text);
    }

    /** The comma and newline before a container's n-th element. */
    method PutLead(first: bool, ghost n: nat)
      requires Valid() && (first <==> n == 0)
      modifies buf`len, buf`data, buf.data
      ensures Stepped(true, Lead(n, indent, st), NoFault, 0)
    {
      buf.AppendLead(first, st.pretty, indent);
    }

    method WriteString(s: Bytes) returns (ok: bool)
      requires Valid()
      modifies this`status, buf`len, buf`data, buf.data
      ensures Stepped(ok, Quoted(s, st.write, st.hex), if WellFormed(s) then NoFault else BadUtf8, |s|)
    {
      hide WellFormed, Body;
      var start := buf.len;
      var size := StringWriter.WriteString(buf, s, st.write, tuning);
      if size.TooLarge? {
        status := TooLarge;
        return false;
      }
      if size.InvalidUtf8? {
        status := InvalidUtf8;
        return false;
      }
      if st.hex == NO_HEX {
        return true;
      }
      HexEscapes.RewriteOfQuoted(s, st.write, st.hex);
      hide HexEscapes.Encoded, HexEscapes.HexRewrite;
      assert buf.Contents()[start..] == Quoted(s, st.write, NO_HEX);
      assert buf.Contents()[..start] == old(buf.Contents());
      ok := HexEscapes.ApplyHexEscapes(buf, st.hex, start);
      if !ok {
        status := TooLarge;
      }
    }

    /** A member's key, colon and space. */
    method WriteKey(key: Bytes) returns (ok: bool)
      requires Valid()
      modifies this`status, buf`len, buf`data, buf.data
      ensures Stepped(ok, KeyText(key, st), if WellFormed(key) then NoFault else BadUtf8, |key|)
    {
      hide WellFormed, Quoted;
      ok := WriteString(key);
      if ok {
        buf.Append([COLON]);
        if st.pretty {
          buf.Append([SPACE]);
        }
      }
    }

    /** A number, with room for any number reserved, or a raw lexeme with its own. */
    method WriteNumber(lexeme: Bytes, finite: bool) returns (ok: bool)
      requires Valid()
      modifies this`status, buf`len, buf`data, buf.data
      ensures Stepped(ok, lexeme, if finite then NoFault else NotFinite, 0)
    {
      if !finite {
        status := InfOrNan;
        return false;
      }
      var add: nat :| |lexeme| <= add <= Max(|lexeme|, NUM_WORST);
      assert Max(|lexeme|, NUM_WORST) <= |lexeme| + NUM_WORST;
      assert NUM_WORST <= Spare(0, tuning);
      ok := buf.Reserve(add);
      if !ok {
        status := TooLarge;
        return;
      }
      buf.Append(lexeme);
    }

    /** Prints a whole value. */
    method WriteFull(v: Value, remaining: nat) returns (ok: bool)
      requires Valid()
      modifies this`indent, this`status, buf`len, buf`data, buf.data
      ensures Stepped(ok, Print(v, old(indent), st), FirstFault(v, remaining), LongestText(v))
      decreases v, 0
    {
      hide WellFormed, Quoted;
      if remaining == 0 {
        status := DepthFail;
        return false;
      }
      match v
      case Null =>
        Put(NULL_TEXT);
        return true;
      case Bool(b) =>
        Put(if b then TRUE_TEXT else FALSE_TEXT);
        return true;
      case Num(lexeme, finite) =>
        ok := WriteNumber(lexeme, finite);
        return;
      case Str(s) =>
        ok := WriteString(s);
        return;
      case Arr(items) =>
        if remaining <= 1 {
          status := DepthFail;
          return false;
        }
        ok := WriteArrayFull(items, remaining);
        return;
      case Obj(members) =>
        if remaining <= 1 {
          status := DepthFail;
          return false;
        }
        ok := WriteObjectFull(members, remaining);
        return;
    }

    /** The failure of an array's k-th element is the array's. */
    lemma BlameItem(items: seq<Value>, k: nat, at: nat, level: nat, remaining: nat)
      requires k < |items| && FirstFaultItems(items, k, remaining) == NoFault
      requires Blames(FirstFault(items[k], remaining), at + 1 + |PrintItems(items, k, Inner(level, st), st)|,
                      |Lead(k, Inner(level, st), st) + Print(items[k], Inner(level, st), st)|, LongestText(items[k]))
      ensures Blames(FirstFaultItems(items, |items|, remaining), at, |Print(Arr(items), level, st)|,
                     LongestOfItems(items, |items|))
    {
      hide FirstFault, PrintItems, LongestOfItems, LongestText, Lead, Print;
      if status == TooLarge {
        hide FirstFaultItems;
        ItemRoom(items, k, Inner(level, st), st);
        ArrayRoom(items, level);
      } else {
        assert FirstFaultItems(items, k + 1, remaining) == FirstFault(items[k], remaining);
        ItemsFaultStays(items, k + 1, |items|, remaining);
      }
    }

    /** The failure of a k-th member is that of any row of members it belongs to. */
    lemma BlameMember(members: seq<Entry<Value>>, k: nat, m: nat, n: nat, at: nat, level: nat, remaining: nat)
      requires k < m <= n <= |members| && FirstFaultMembers(members, k, remaining) == NoFault
      requires Blames(if WellFormed(members[k].key) then FirstFault(members[k].value, remaining) else BadUtf8,
                      at + |PrintMembers(members, k, level, st)|,
                      |Lead(k, level, st) + KeyText(members[k].key, st) + Print(members[k].value, level, st)|,
                      Max(|members[k].key|, LongestText(members[k].value)))
      ensures Blames(FirstFaultMembers(members, m, remaining), at, |PrintMembers(members, n, level, st)|,
                     LongestOfMembers(members, n))
    {
      hide WellFormed, FirstFault, PrintMembers, LongestOfMembers, LongestText, Lead, KeyText, Print;
      if status == TooLarge {
        hide FirstFaultMembers;
        MemberRoom(members, k, n, level, st);
      } else {
        assert FirstFaultMembers(members, k + 1, remaining) != NoFault;
        MembersFaultStays(members, k + 1, m, remaining);
      }
    }

    /** The failure of an object's k-th member is the object's. */
    lemma BlameEntry(members: seq<Entry<Value>>, k: nat, at: nat, level: nat, remaining: nat)
      requires k < |members| && FirstFaultMembers(members, k, remaining) == NoFault
      requires var inner := Inner(level, st);
               Blames(if WellFormed(members[k].key) then FirstFault(members[k].value, remaining) else BadUtf8,
                      at + 1 + |PrintMembers(members, k, inner, st)|,
                      |Lead(k, inner, st) + KeyText(members[k].key, st) + Print(members[k].value, inner, st)|,
                      Max(|members[k].key|, LongestText(members[k].value)))
      ensures Blames(FirstFaultMembers(members, |members|, remaining), at, |Print(Obj(members), level, st)|,
                     LongestOfMembers(members, |members|))
    {
      hide WellFormed, FirstFault, FirstFaultMembers, PrintMembers, LongestOfMembers, LongestText, Lead, KeyText, Print;
      BlameMember(members, k, |members|, |members|, at + 1, Inner(level, st), remaining);
      ObjectRoom(members, |members|, level);
    }

    lemma ArrayRoom(items: seq<Value>, level: nat)
      ensures 1 + |PrintItems(items, |items|, Inner(level, st), st)| <= |Print(Arr(items), level, st)|
    {
      hide PrintItems, Lead, Trail, Inner;
      ArrayText([], items, level, st);
    }

    /** The first members of an object take less room than the object. */
    lemma ObjectRoom(members: seq<Entry<Value>>, n: nat, level: nat)
      requires n <= |members|
      ensures 1 + |PrintMembers(members, n, Inner(level, st), st)| <= |Print(Obj(members), level, st)|
      ensures LongestOfMembers(members, n) <= LongestOfMembers(members, |members|)
    {
      hide PrintMembers, Lead, Trail, KeyText, LongestText, LongestOfMembers, Inner;
      MembersTakeRoom(members, n, |members|, Inner(level, st), st);
      LongestGrows(members, n, |members|);
      ObjectText([], members, level, st);
    }

    /** The opening bracket; elements of a non-empty container sit one level deeper. */
    method Open(bracket: Byte, nonEmpty: bool)
      requires Valid()
      modifies this`indent, buf`len, buf`data, buf.data
      ensures Valid() && (buf.data == old(buf.data) || fresh(buf.data))
      ensures buf.Contents() == old(buf.Contents()) + [bracket]
      ensures indent == if nonEmpty then Inner(old(indent), st) else old(indent)
    {
      indent := buf.OpenBracket(bracket, st.pretty && nonEmpty, indent);
    }

    /** Back out one level and close. */
    method Close(bracket: Byte, nonEmpty: bool, ghost n: nat, ghost level: nat)
      requires Valid() && (nonEmpty <==> n > 0) && indent == if nonEmpty then Inner(level, st) else level
      modifies this`indent, buf`len, buf`data, buf.data
      ensures Valid() && (buf.data == old(buf.data) || fresh(buf.data))
      ensures buf.Contents() == old(buf.Contents()) + (Trail(n, level, st) + [bracket])
      ensures indent == level
    {
      indent := buf.CloseBracket(bracket, st.pretty && nonEmpty, indent);
    }

    method WriteElement(first: bool, v: Value, remaining: nat, ghost n: nat) returns (ok: bool)
      requires Valid() && (first <==> n == 0)
      modifies this`indent, this`status, buf`len, buf`data, buf.data
      ensures Stepped(ok, Lead(n, old(indent), st) + Print(v, old(indent), st), FirstFault(v, remaining),
                      LongestText(v))
      decreases v, 2
    {
      hide Print, FirstFault, Lead, LongestText;
      PutLead(first, n);
      ok := WriteFull(v, remaining);
    }

    method WriteMember(first: bool, key: Bytes, v: Value, remaining: nat, ghost n: nat) returns (ok: bool)
      requires Valid() && (first <==> n == 0)
      modifies this`indent, this`status, buf`len, buf`data, buf.data
      ensures Stepped(ok, Lead(n, old(indent), st) + KeyText(key, st) + Print(v, old(indent), st),
                      if WellFormed(key) then FirstFault(v, remaining) else BadUtf8, Max(|key|, LongestText(v)))
      decreases v, 2
    {
      hide Print, FirstFault, Lead, KeyText, WellFormed, LongestText;
      PutLead(first, n);
      ok := WriteKey(key);
      if !ok {
        return;
      }
      ok := WriteFull(v, remaining);
    }

    method WriteArrayFull(items: seq<Value>, remaining: nat) returns (ok: bool)
      requires Valid() && remaining > 1
      modifies this`indent, this`status, buf`len, buf`data, buf.data
      ensures Stepped(ok, Print(Arr(items), old(indent), st), FirstFaultItems(items, |items|, remaining - 1),
                      LongestOfItems(items, |items|))
      decreases items, 1
    {
      hide Print, FirstFault, Lead, Trail, LongestText;
      ghost var before, level := buf.Contents(), indent;
      Open(LEFT_BRACKET, |items| > 0);
      for k := 0 to |items|
        invariant Valid() && (buf.data == old(buf.data) || fresh(buf.data))
        invariant status == old(status) && indent == if |items| > 0 then Inner(level, st) else level
        invariant buf.Contents() == before + [LEFT_BRACKET] + PrintItems(items, k, Inner(level, st), st)
        invariant FirstFaultItems(items, k, remaining - 1) == NoFault
      {
        ItemsGrow(before + [LEFT_BRACKET], items, k, Inner(level, st), st);
        ok := WriteElement(k == 0, items[k], remaining - 1, k);
        if !ok {
          BlameItem(items, k, |before|, level, remaining - 1);
          return;
        }
      }
      Close(RIGHT_BRACKET, |items| > 0, |items|, level);
      ArrayText(before, items, level, st);
      return true;
    }

    method WriteObjectFull(members: seq<Entry<Value>>, remaining: nat) returns (ok: bool)
      requires Valid() && remaining > 1
      modifies this`indent, this`status, buf`len, buf`data, buf.data
      ensures Stepped(ok, Print(Obj(members), old(indent), st), FirstFaultMembers(members, |members|, remaining - 1),
                      LongestOfMembers(members, |members|))
      decreases members, 1
    {
      hide Print, FirstFault, Lead, Trail, KeyText, WellFormed, LongestText;
      ghost var before, level := buf.Contents(), indent;
      NothingPrinted(members, Inner(level, st), remaining);
      hide PrintMembers, FirstFaultMembers, LongestOfMembers, Blames;
      Open(LEFT_BRACE, |members| > 0);
      for k := 0 to |members|
        invariant Valid() && (buf.data == old(buf.data) || fresh(buf.data))
        invariant status == old(status) && indent == if |members| > 0 then Inner(level, st) else level
        invariant buf.Contents() == before + [LEFT_BRACE] + PrintMembers(members, k, Inner(level, st), st)
        invariant FirstFaultMembers(members, k, remaining - 1) == NoFault
      {
        MembersGrow(before + [LEFT_BRACE], members, k, Inner(level, st), st);
        ok := WriteMember(k == 0, members[k].key, members[k].value, remaining - 1, k);
        if !ok {
          BlameEntry(members, k, |before|, level, remaining - 1);
          return;
        }
        NextFaultFree(members, k, remaining - 1);
      }
      Close(RIGHT_BRACE, |members| > 0, |members|, level);
      ObjectText(before, members, level, st);
      return true;
    }

    /** Copies finished text line by line, pushing every line after the first to the current level. */
    method EmitReindented(text: Bytes) returns (ok: bool)
      requires Valid()
      modifies this`status, buf`len, buf`data, buf.data
      ensures Stepped(ok, Reindent(text, indent), NoFault, 0)
    {
      hide Reindent;
      ghost var before := buf.Contents();
      var start := 0;
      ReindentFixes([], indent);
      assert text[..0] == [] && before + [] == before;
      for i := 0 to |text|
        invariant start <= i && NEWLINE !in text[start..i]
        invariant Valid() && (buf.data == old(buf.data) || fresh(buf.data)) && status == old(status)
        invariant buf.Contents() == before + Reindent(text[..start], indent)
      {
        if text[i] != NEWLINE {
          continue;
        }
        LineReindents(before, text, start, i, indent);
        ReindentedRoom(text, i + 1, indent);
        ok := Emit(text[start..i + 1] + Spaces(4 * indent));
        if !ok {
          return;
        }
        start := i + 1;
      }
      ReindentFixes(text[start..], indent);
      ReindentAppend(text[..start], text[start..], indent);
      assert text == text[..start] + text[start..];
      if start < |text| {
        ok := Emit(text[start..]);
      } else {
        assert text[start..] == [];
        ok := true;
      }
    }

    lemma ReindentedRoom(text: Bytes, n: nat, shift: nat)
      requires n <= |text|
      ensures |Reindent(text[..n], shift)| <= |Reindent(text, shift)|
    {
      hide Reindent;
      assert text == text[..n] + text[n..];
      ReindentAppend(text[..n], text[n..], shift);
    }

    lemma LineReindents(before: Bytes, text: Bytes, start: nat, i: nat, shift: nat)
      requires start <= i < |text| && NEWLINE !in text[start..i] && text[i] == NEWLINE
      ensures before + Reindent(text[..start], shift) + (text[start..i + 1] + Spaces(4 * shift))
           == before + Reindent(text[..i + 1], shift)
    {
      assert Reindent([NEWLINE], shift) == Reindent([], shift) + NewlineIndent(shift);
      hide Reindent;
      var head, line := text[..start], text[start..i];
      assert text[start..i + 1] == line + [NEWLINE] && text[..i + 1] == head + (line + [NEWLINE]);
      ReindentAppend(head, line + [NEWLINE], shift);
      ReindentAppend(line, [NEWLINE], shift);
      ReindentFixes(line, shift);
    }

    /** The new value, at the place the writer has reached. */
    method WriteReplacement(remaining: nat) returns (ok: bool)
      requires Valid() && remaining + |segs| == limit
      modifies this`indent, this`status, buf`len, buf`data, buf.data
      ensures Stepped(ok, Print(nv, old(indent), st), FirstFault(nv, remaining), LongestText(nv))
    {
      hide Print, FirstFault, PlainNumbers, LongestText, Reindent;
      if replacement.Tree? {
        ok := WriteFull(replacement.v, remaining);
        return;
      }
      var text := replacement.text;
      ReplacementText(indent);
      if !st.pretty || indent == 0 || NEWLINE !in text {
        ok := Emit(text);
        return;
      }
      ok := EmitReindented(text);
    }

    /** Pre-encoded text, as it is or pushed to `level`, is the value printed at that level. */
    lemma ReplacementText(level: nat)
      requires Valid() && replacement.Encoded?
      ensures Reindent(replacement.text, level) == Print(nv, level, st)
      ensures !st.pretty || level == 0 || NEWLINE !in replacement.text ==> replacement.text == Print(nv, level, st)
    {
      hide Print, FirstFault, PlainNumbers, Reindent;
      ReindentPrint(nv, 0, st, level);
      if !st.pretty {
        CompactIgnoresLevel(nv, 0, level, st);
      } else if NEWLINE !in replacement.text {
        ReindentFixes(replacement.text, level);
      }
    }

    /** The objects a missing suffix needs, one inside the other, around the new value. */
    method BuildSuffix(i: nat, remaining: nat) returns (ok: bool)
      requires Valid() && i < |segs| && remaining + i + 1 == limit
      modifies this`indent, this`status, buf`len, buf`data, buf.data
      ensures Stepped(ok, Print(Nest(segs, i + 1, nv), old(indent), st), FirstFault(Nest(segs, i + 1, nv), remaining),
                      LongestText(Nest(segs, i + 1, nv)))
      decreases |segs| - i
    {
      hide Print, FirstFault, WellFormed, KeyText, Lead, Trail, LongestText;
      if i == |segs| - 1 {
        ok := WriteReplacement(remaining);
        return;
      }
      ghost var before, level := buf.Contents(), indent;
      SingleMember(before, segs[i + 1], Nest(segs, i + 2, nv), level, remaining);
      if remaining <= 1 {
        status := DepthFail;
        return false;
      }
      ok := OpenMember(segs[i + 1]);
      if !ok {
        return;
      }
      ok := BuildSuffix(i + 1, remaining - 1);
      if !ok {
        return;
      }
      Close(RIGHT_BRACE, true, 1, level);
    }

    /** The start of a one-member object: everything before its value. */
    method OpenMember(key: Bytes) returns (ok: bool)
      requires Valid()
      modifies this`indent, this`status, buf`len, buf`data, buf.data
      ensures Valid() && (buf.data == old(buf.data) || fresh(buf.data))
      ensures ok ==> WellFormed(key) && status == old(status) && indent == Inner(old(indent), st)
      ensures ok ==> buf.Contents()
                     == old(buf.Contents()) + [LEFT_BRACE] + Lead(0, Inner(old(indent), st), st) + KeyText(key, st)
      ensures !ok ==> Blames(if WellFormed(key) then NoFault else BadUtf8, old(buf.len),
                             1 + |Lead(0, Inner(old(indent), st), st)| + |KeyText(key, st)|, |key|)
    {
      hide WellFormed, KeyText, Lead;
      Open(LEFT_BRACE, true);
      PutLead(true, 0);
      ok := WriteKey(key);
    }

    lemma SingleMember(before: Bytes, key: Bytes, v: Value, level: nat, remaining: nat)
      ensures before + [LEFT_BRACE] + Lead(0, Inner(level, st), st) + KeyText(key, st) + Print(v, Inner(level, st), st)
              + (Trail(1, level, st) + [RIGHT_BRACE])
           == before + Print(Obj([Entry(key, v)]), level, st)
      ensures FirstFault(Obj([Entry(key, v)]), remaining)
           == if remaining <= 1 then TooDeep else if WellFormed(key) then FirstFault(v, remaining - 1) else BadUtf8
      ensures LongestText(Obj([Entry(key, v)])) == Max(|key|, LongestText(v))
      ensures |Print(Obj([Entry(key, v)]), level, st)|
           == 1 + |Lead(0, Inner(level, st), st)| + |KeyText(key, st)| + |Print(v, Inner(level, st), st)|
              + |Trail(1, level, st) + [RIGHT_BRACE]|
    {
      hide WellFormed, KeyText, Lead, Trail;
      var members := [Entry(key, v)];
      assert PrintMembers(members, 0, Inner(level, st), st) == [];
      MembersGrow(before + [LEFT_BRACE], members, 0, Inner(level, st), st);
      ObjectText(before, members, level, st);
      assert remaining > 1 ==> FirstFaultMembers(members, 0, remaining - 1) == NoFault;
      assert LongestOfMembers(members, 0) == 0;
    }

    /** The edit's promise: the edited tree's own text if there is such a tree, failure otherwise. */
    twostate predicate Edits(ok: bool, r: SetResult, level: nat, remaining: nat)
      requires old(buf.Valid())
      reads this, buf, buf.data
    {
      if r.Done? then Stepped(ok, Print(r.v, level, st), FirstFault(r.v, remaining), LongestText(r.v))
      else Valid() && (buf.data == old(buf.data) || fresh(buf.data)) && !ok
    }

    /** Prints a container on the pointer's path. */
    method WriteAt(v: Value, i: nat, remaining: nat) returns (ok: bool)
      requires Valid() && i < |segs| && remaining + i == limit
      modifies this`indent, this`status, this`settable, buf`len, buf`data, buf.data
      ensures Edits(ok, SetAt(v, segs, i, nv, sizeMax), old(indent), remaining)
      decreases |segs| - i, 3
    {
      hide Print, KeyMatches, MatchCount, LastMatch, IndexOf, WellFormed, LongestText;
      if remaining <= 1 {
        status := DepthFail;
        return false;
      }
      if v.Obj? {
        ok := WriteObjectAt(v.members, i, remaining);
        return;
      }
      if v.Arr? {
        ok := WriteArrayAt(v.items, i, remaining);
        return;
      }
      settable := false;
      return false;
    }

    /** The element the path goes through: the new value at its end, another container before that. */
    method WriteStep(child: Value, i: nat, remaining: nat) returns (ok: bool)
      requires Valid() && i < |segs| && remaining + i + 1 == limit
      modifies this`indent, this`status, this`settable, buf`len, buf`data, buf.data
      ensures Edits(ok, SetAt(child, segs, i + 1, nv, sizeMax), old(indent), remaining)
      decreases |segs| - i, 0
    {
      hide Print, FirstFault, KeyMatches, MatchCount, LastMatch, IndexOf, LongestText;
      if i == |segs| - 1 {
        ok := WriteReplacement(remaining);
      } else {
        ok := WriteAt(child, i + 1, remaining);
      }
    }

    /** The k-th element of an array on the path; `r` is what becomes of the one the path goes through. */
    method WriteItemAt(items: seq<Value>, want: nat, k: nat, i: nat, remaining: nat,
                       ghost r: SetResult) returns (ok: bool)
      requires Valid() && i < |segs| && remaining + i + 1 == limit && want < |items| && k < |items|
      requires r == SetAt(items[want], segs, i + 1, nv, sizeMax)
      modifies this`indent, this`status, this`settable, buf`len, buf`data, buf.data
      ensures k == want && !r.Done? ==> Edits(ok, r, old(indent), remaining)
      ensures k != want || r.Done? ==>
        var v := if k == want then r.v else items[k];
        Stepped(ok, Lead(k, old(indent), st) + Print(v, old(indent), st), FirstFault(v, remaining), LongestText(v))
      decreases |segs| - i, 1, 0
    {
      hide Print, FirstFault, Lead, SetAt, LongestText;
      if k == want {
        PutLead(k == 0, k);
        ok := WriteStep(items[k], i, remaining);
      } else {
        ok := WriteElement(k == 0, items[k], remaining, k);
      }
    }

    method WriteArrayAt(items: seq<Value>, i: nat, remaining: nat) returns (ok: bool)
      requires Valid() && i < |segs| && remaining + i == limit && remaining > 1
      modifies this`indent, this`status, this`settable, buf`len, buf`data, buf.data
      ensures Edits(ok, SetAt(Arr(items), segs, i, nv, sizeMax), old(indent), remaining)
      decreases |segs| - i, 2
    {
      hide Print, FirstFault, Lead, Trail, IndexOf, LongestText;
      var isIndex, want := SegIsIndex(segs[i], sizeMax);
      if !isIndex || want >= |items| {
        settable := false;
        return false;
      }
      ghost var r := SetAt(items[want], segs, i + 1, nv, sizeMax);
      ok := WriteArrayEdited(items, want, i, remaining, r);
      if r.Done? {
        ArrayFault(items[want := r.v], remaining);
      }
    }

    method WriteArrayEdited(items: seq<Value>, want: nat, i: nat, remaining: nat, ghost r: SetResult) returns (ok: bool)
      requires Valid() && i < |segs| && remaining + i == limit && remaining > 1 && want < |items|
      requires r == SetAt(items[want], segs, i + 1, nv, sizeMax)
      modifies this`indent, this`status, this`settable, buf`len, buf`data, buf.data
      ensures Valid() && (buf.data == old(buf.data) || fresh(buf.data))
      ensures !r.Done? ==> !ok
      ensures r.Done? ==>
        var edited := items[want := r.v];
        Stepped(ok, Print(Arr(edited), old(indent), st), FirstFaultItems(edited, |edited|, remaining - 1),
                LongestOfItems(edited, |edited|))
      decreases |segs| - i, 1, 1
    {
      hide Print, FirstFault, Lead, Trail, SetAt, LongestText;
      ghost var before, level := buf.Contents(), indent;
      ghost var edited := if r.Done? then items[want := r.v] else items;
      Open(LEFT_BRACKET, true);
      for k := 0 to |items|
        invariant Valid() && (buf.data == old(buf.data) || fresh(buf.data))
        invariant status == old(status) && indent == Inner(level, st)
        invariant buf.Contents() == before + [LEFT_BRACKET] + PrintItems(edited, k, Inner(level, st), st)
        invariant FirstFaultItems(edited, k, remaining - 1) == NoFault
        invariant k > want ==> r.Done?
      {
        ItemsGrow(before + [LEFT_BRACKET], edited, k, Inner(level, st), st);
        ok := WriteItemAt(items, want, k, i, remaining - 1, r);
        if !ok {
          if r.Done? {
            BlameItem(edited, k, |before|, level, remaining - 1);
          }
          return;
        }
      }
      Close(RIGHT_BRACKET, true, |items|, level);
      ArrayText(before, edited, level, st);
      return true;
    }

    lemma ArrayFault(items: seq<Value>, remaining: nat)
      requires remaining > 1
      ensures FirstFault(Arr(items), remaining) == FirstFaultItems(items, |items|, remaining - 1)
      ensures LongestText(Arr(items)) == LongestOfItems(items, |items|)
    {
    }

    lemma ObjectFault(members: seq<Entry<Value>>, remaining: nat)
      requires remaining > 1
      ensures FirstFault(Obj(members), remaining) == FirstFaultMembers(members, |members|, remaining - 1)
      ensures LongestText(Obj(members)) == LongestOfMembers(members, |members|)
    {
    }

    /** What becomes of a member's value when the path goes through it. */
    ghost function Through(e: Entry<Value>, i: nat): SetResult
      requires i < |segs|
    {
      SetAt(e.value, segs, i + 1, nv, sizeMax)
    }

    /** The first members of `edited` are those of `members`, the one the path goes through edited. */
    ghost predicate EditOf(members: seq<Entry<Value>>, i: nat, edited: seq<Entry<Value>>)
      requires i < |segs|
    {
      && |members| <= |edited|
      && forall k :: 0 <= k < |members| ==>
           if members[k].key == segs[i]
           then Through(members[k], i).Done? && edited[k] == Entry(segs[i], Through(members[k], i).v)
           else edited[k] == members[k]
    }

    /** The member the path goes through. */
    method WriteTarget(first: bool, e: Entry<Value>, i: nat, remaining: nat, ghost n: nat) returns (ok: bool)
      requires Valid() && i < |segs| && remaining + i + 1 == limit && (first <==> n == 0)
      modifies this`indent, this`status, this`settable, buf`len, buf`data, buf.data
      ensures Valid() && (buf.data == old(buf.data) || fresh(buf.data))
      ensures !Through(e, i).Done? ==> !ok
      ensures Through(e, i).Done? ==>
        Stepped(ok, Lead(n, old(indent), st) + KeyText(e.key, st) + Print(Through(e, i).v, old(indent), st),
                if WellFormed(e.key) then FirstFault(Through(e, i).v, remaining) else BadUtf8,
                Max(|e.key|, LongestText(Through(e, i).v)))
      decreases |segs| - i, 1, 0
    {
      hide Print, FirstFault, Lead, KeyText, WellFormed, KeyMatches, MatchCount, LastMatch, IndexOf, LongestText;
      if i < |segs| - 1 && !e.value.IsContainer() {
        settable := false;
        return false;
      }
      hide SetAt;
      PutLead(first, n);
      ok := WriteKey(e.key);
      if !ok {
        return;
      }
      ok := WriteStep(e.value, i, remaining);
    }

    /** What an object's member is printed as. */
    ghost function Printed(e: Entry<Value>, i: nat): Entry<Value>
      requires i < |segs|
    {
      if e.key == segs[i] && Through(e, i).Done? then Entry(e.key, Through(e, i).v) else e
    }

    method WriteMemberAt(first: bool, e: Entry<Value>, i: nat, remaining: nat, ghost n: nat) returns (ok: bool)
      requires Valid() && i < |segs| && remaining + i + 1 == limit && (first <==> n == 0)
      modifies this`indent, this`status, this`settable, buf`len, buf`data, buf.data
      ensures Valid() && (buf.data == old(buf.data) || fresh(buf.data))
      ensures e.key == segs[i] && !Through(e, i).Done? ==> !ok
      ensures e.key != segs[i] || Through(e, i).Done? ==>
        Stepped(ok, Lead(n, old(indent), st) + KeyText(e.key, st) + Print(Printed(e, i).value, old(indent), st),
                if WellFormed(e.key) then FirstFault(Printed(e, i).value, remaining) else BadUtf8,
                Max(|e.key|, LongestText(Printed(e, i).value)))
      decreases |segs| - i, 1, 1
    {
      hide Print, FirstFault, Lead, KeyText, WellFormed, Through, LongestText;
      if e.key == segs[i] {
        ok := WriteTarget(first, e, i, remaining, n);
      } else {
        ok := WriteMember(first, e.key, e.value, remaining, n);
      }
    }

    /** How many members come before the second with the wanted key; all of them if there is none. */
    ghost function Reach(members: seq<Entry<Value>>, seg: Bytes, n: nat): (r: nat)
      requires n <= |members|
      ensures r <= n
    {
      if n == 0 || MatchCount(members, seg, NO_FLAGS, n) <= 1 then n else Reach(members, seg, n - 1)
    }

    lemma {:induction false} ReachIsLast(members: seq<Entry<Value>>, seg: Bytes, k: nat, n: nat)
      requires k <= n <= |members| && MatchCount(members, seg, NO_FLAGS, k) <= 1
      ensures k <= Reach(members, seg, n)
      ensures k < n && MatchCount(members, seg, NO_FLAGS, k + 1) > 1 ==> Reach(members, seg, n) == k
      decreases n - k
    {
      hide KeyMatches;
      if k < n {
        ReachIsLast(members, seg, k, n - 1);
        MatchCountGrows(members, seg, NO_FLAGS, k + 1, n);
      }
    }

    /** The members an object on the path already has. The second with the wanted key stops everything. */
    method WriteMembersAt(members: seq<Entry<Value>>, i: nat, remaining: nat, ghost edited: seq<Entry<Value>>)
      returns (ok: bool, matched: bool)
      requires Valid() && i < |segs| && remaining + i + 1 == limit
      modifies this`indent, this`status, this`settable, buf`len, buf`data, buf.data
      ensures Valid() && (buf.data == old(buf.data) || fresh(buf.data))
      ensures ok ==> MatchCount(members, segs[i], NO_FLAGS, |members|) == if matched then 1 else 0
      ensures ok ==> forall k :: 0 <= k < |members| && members[k].key == segs[i] ==> Through(members[k], i).Done?
      ensures ok ==> indent == old(indent) && status == old(status)
      ensures ok && EditOf(members, i, edited) ==> FirstFaultMembers(edited, |members|, remaining) == NoFault
      ensures ok && EditOf(members, i, edited) ==>
        buf.Contents() == old(buf.Contents()) + PrintMembers(edited, |members|, indent, st)
      ensures !ok && EditOf(members, i, edited) ==>
        MembersFail(members, i, remaining, edited, old(buf.len), old(indent))
      decreases |segs| - i, 1, 3
    {
      hide Print, FirstFault, Lead, KeyText, WellFormed, Through, LongestText;
      ghost var before, level := buf.Contents(), indent;
      matched := false;
      for k := 0 to |members|
        invariant Valid() && (buf.data == old(buf.data) || fresh(buf.data))
        invariant indent == level && status == old(status)
        invariant MembersDone(members, i, k, matched, remaining, edited, before)
      {
        ok, matched := WriteMembersTurn(members, i, k, matched, remaining, edited, before);
        if !ok {
          return;
        }
      }
      return true, matched;
    }

    /** The first `k` members are out, as `edited` has them if it has them right, and at most one had the key. */
    ghost predicate MembersDone(members: seq<Entry<Value>>, i: nat, k: nat, matched: bool, remaining: nat,
                                edited: seq<Entry<Value>>, before: Bytes)
      requires Valid() && i < |segs| && k <= |members|
      reads this, buf, buf.data
    {
      && MatchCount(members, segs[i], NO_FLAGS, k) == (if matched then 1 else 0)
      && (forall j :: 0 <= j < k && members[j].key == segs[i] ==> Through(members[j], i).Done?)
      && (EditOf(members, i, edited) ==>
            && FirstFaultMembers(edited, k, remaining) == NoFault
            && buf.Contents() == before + PrintMembers(edited, k, indent, st))
    }

    /** Why the members cannot all be written: a second match, a fault before it, or want of room. */
    ghost predicate MembersFail(members: seq<Entry<Value>>, i: nat, remaining: nat, edited: seq<Entry<Value>>,
                                at: nat, level: nat)
      requires i < |segs| && |members| <= |edited|
      reads this
    {
      var reach := Reach(members, segs[i], |members|);
      || (status == Ambiguous && reach < |members| && FirstFaultMembers(edited, reach, remaining) == NoFault)
      || Blames(FirstFaultMembers(edited, reach, remaining), at, |PrintMembers(edited, |members|, level, st)|,
                LongestOfMembers(edited, |members|))
    }

    method WriteMembersTurn(members: seq<Entry<Value>>, i: nat, k: nat, matched: bool, remaining: nat,
                            ghost edited: seq<Entry<Value>>, ghost before: Bytes)
      returns (ok: bool, matched': bool)
      requires Valid() && i < |segs| && remaining + i + 1 == limit && k < |members|
      requires MembersDone(members, i, k, matched, remaining, edited, before)
      modifies this`indent, this`status, this`settable, buf`len, buf`data, buf.data
      ensures Valid() && (buf.data == old(buf.data) || fresh(buf.data))
      ensures ok ==> indent == old(indent) && status == old(status)
      ensures ok ==> MembersDone(members, i, k + 1, matched', remaining, edited, before)
      ensures !ok && EditOf(members, i, edited) ==>
        MembersFail(members, i, remaining, edited, |before|, old(indent))
      decreases |segs| - i, 1, 2
    {
      hide Print, FirstFault, Lead, KeyText, WellFormed, Through, LongestText, KeyMatches;
      ghost var level, right := indent, EditOf(members, i, edited);
      var isTarget := members[k].key == segs[i];
      matched' := matched || isTarget;
      CountStep(members, segs[i], k);
      ReachIsLast(members, segs[i], k, |members|);
      if isTarget && matched {
        status := Ambiguous;
        settable := false;
        return false, matched';
      }
      ReachIsLast(members, segs[i], k + 1, |members|);
      hide MatchCount, Reach;
      if right {
        assert edited[k] == Printed(members[k], i);
        MembersGrow(before, edited, k, level, st);
      }
      ok := WriteMemberAt(k == 0, members[k], i, remaining, k);
      if right {
        hide EditOf, PrintMembers, Printed;
        if ok {
          NextFaultFree(edited, k, remaining);
        } else {
          BlameMember(edited, k, Reach(members, segs[i], |members|), |members|, |before|, level, remaining);
        }
      }
    }

    lemma NothingPrinted(members: seq<Entry<Value>>, level: nat, remaining: nat)
      requires remaining > 0
      ensures PrintMembers(members, 0, level, st) == [] && FirstFaultMembers(members, 0, remaining - 1) == NoFault
    {
    }

    lemma CountStep(members: seq<Entry<Value>>, seg: Bytes, k: nat)
      requires k < |members|
      ensures MatchCount(members, seg, NO_FLAGS, k + 1)
           == MatchCount(members, seg, NO_FLAGS, k) + if members[k].key == seg then 1 else 0
    {
    }

    lemma NextFaultFree(members: seq<Entry<Value>>, k: nat, remaining: nat)
      requires k < |members| && FirstFaultMembers(members, k, remaining) == NoFault
      ensures FirstFaultMembers(members, k + 1, remaining)
           == if WellFormed(members[k].key) then FirstFault(members[k].value, remaining) else BadUtf8
    {
      hide WellFormed, FirstFault;
    }

    /** The member an object on the path lacks, added last. */
    method WriteNewMember(first: bool, i: nat, remaining: nat, ghost n: nat) returns (ok: bool)
      requires Valid() && i < |segs| && remaining + i + 1 == limit && (first <==> n == 0)
      modifies this`indent, this`status, buf`len, buf`data, buf.data
      ensures Stepped(ok,
                      Lead(n, old(indent), st) + KeyText(segs[i], st) + Print(Nest(segs, i + 1, nv), old(indent), st),
                      if WellFormed(segs[i]) then FirstFault(Nest(segs, i + 1, nv), remaining) else BadUtf8,
                      Max(|segs[i]|, LongestText(Nest(segs, i + 1, nv))))
    {
      hide Print, FirstFault, Lead, KeyText, WellFormed, LongestText;
      PutLead(first, n);
      ok := WriteKey(segs[i]);
      if !ok {
        return;
      }
      if i == |segs| - 1 {
        ok := WriteReplacement(remaining);
      } else {
        ok := BuildSuffix(i, remaining);
      }
    }

    /** What an edited object becomes, member by member. */
    lemma EditedMembers(members: seq<Entry<Value>>, i: nat) returns (edited: seq<Entry<Value>>)
      requires i < |segs|
      ensures var r := SetAt(Obj(members), segs, i, nv, sizeMax);
        && (r.Done? ==> r.v == Obj(edited) && EditOf(members, i, edited) && edited != [])
        && (r.Done? ==> MatchCount(members, segs[i], NO_FLAGS, |members|) <= 1)
        && (r.Done? ==> |edited| == |members| + 1 - MatchCount(members, segs[i], NO_FLAGS, |members|))
        && (r.Done? && |edited| > |members| ==> edited[|members|] == Entry(segs[i], Nest(segs, i + 1, nv)))
        && (!r.Done? && MatchCount(members, segs[i], NO_FLAGS, |members|) <= 1 ==>
              exists k :: 0 <= k < |members| && members[k].key == segs[i] && !Through(members[k], i).Done?)
    {
      edited := [];
      var count := MatchCount(members, segs[i], NO_FLAGS, |members|);
      MatchesByCount(members, segs[i], |members|);
      if count == 0 {
        edited := members + [Entry(segs[i], Nest(segs, i + 1, nv))];
      } else if count == 1 {
        var k := LastMatch(members, segs[i], NO_FLAGS, |members|);
        var r := Through(members[k], i);
        if r.Done? {
          edited := members[k := Entry(segs[i], r.v)];
        }
      }
    }

    lemma {:induction false} MatchesByCount(members: seq<Entry<Value>>, seg: Bytes, n: nat)
      requires n <= |members|
      ensures MatchCount(members, seg, NO_FLAGS, n) == 0 ==> forall k :: 0 <= k < n ==> members[k].key != seg
      ensures MatchCount(members, seg, NO_FLAGS, n) == 1 ==>
        forall k :: 0 <= k < n && members[k].key == seg ==> k == LastMatch(members, seg, NO_FLAGS, n)
    {
      if n > 0 {
        MatchesByCount(members, seg, n - 1);
      }
    }

    method WriteObjectAt(members: seq<Entry<Value>>, i: nat, remaining: nat) returns (ok: bool)
      requires Valid() && i < |segs| && remaining + i == limit && remaining > 1
      modifies this`indent, this`status, this`settable, buf`len, buf`data, buf.data
      ensures Edits(ok, SetAt(Obj(members), segs, i, nv, sizeMax), old(indent), remaining)
      decreases |segs| - i, 2
    {
      hide Print, FirstFault, Lead, Trail, KeyText, WellFormed, SetAt, Through, LongestText;
      ghost var before, level := buf.Contents(), indent;
      ghost var edited := EditedMembers(members, i);
      ObjectFault(edited, remaining);
      Open(LEFT_BRACE, true);
      var matched;
      ok, matched := WriteMembersAt(members, i, remaining - 1, edited);
      if !ok {
        if SetAt(Obj(members), segs, i, nv, sizeMax).Done? {
          ReachIsLast(members, segs[i], |members|, |members|);
          if status == TooLarge {
            ObjectRoom(edited, |members|, level);
          } else {
            MembersFaultStays(edited, |members|, |edited|, remaining - 1);
          }
        }
        return;
      }
      assert SetAt(Obj(members), segs, i, nv, sizeMax).Done?;
      ok := FinishObject(matched, i, remaining - 1, |members|, edited, before, level);
    }

    /** The member that was missing, if it was, and the closing brace. */
    method FinishObject(matched: bool, i: nat, remaining: nat, n: nat, ghost edited: seq<Entry<Value>>,
                        ghost before: Bytes, ghost level: nat) returns (ok: bool)
      requires Valid() && i < |segs| && remaining + i + 1 == limit
      requires |edited| == (if matched then n else n + 1) > 0 && indent == Inner(level, st)
      requires !matched ==> edited[n] == Entry(segs[i], Nest(segs, i + 1, nv))
      requires buf.Contents() == before + [LEFT_BRACE] + PrintMembers(edited, n, Inner(level, st), st)
      requires FirstFaultMembers(edited, n, remaining) == NoFault
      modifies this`indent, this`status, buf`len, buf`data, buf.data
      ensures Valid() && (buf.data == old(buf.data) || fresh(buf.data))
      ensures ok ==> buf.Contents() == before + Print(Obj(edited), level, st)
      ensures ok ==> indent == level && status == old(status)
      ensures ok ==> FirstFaultMembers(edited, |edited|, remaining) == NoFault
      ensures !ok ==> Blames(FirstFaultMembers(edited, |edited|, remaining), |before|, |Print(Obj(edited), level, st)|,
                             LongestOfMembers(edited, |edited|))
    {
      hide Print, FirstFault, Lead, Trail, KeyText, WellFormed, LongestText;
      if !matched {
        MembersGrow(before + [LEFT_BRACE], edited, n, Inner(level, st), st);
        ok := WriteNewMember(n == 0, i, remaining, n);
        if !ok {
          BlameEntry(edited, n, |before|, level, remaining);
          return;
        }
      }
      Close(RIGHT_BRACE, true, |edited|, level);
      ObjectText(before, edited, level, st);
      return true;
    }
  }

  // ---------------------------------------------------------------- the entry point

  /** The largest depth at which a replacement fits under the pointer. */
  function ReplacementBudget(depth: nat, nsegs: nat): nat {
    if depth >= nsegs + 1 then depth - nsegs - 1 else 0
  }

  /**
   * The gates are neither too wide nor too narrow: no value can be set through as many segments as there are levels,
   * and a value within its budget is one that the edited document has levels for, if the document had.
   */
  lemma BudgetIsExact(root: Value, segs: seq<Bytes>, nv: Value, depth: nat, sizeMax: nat)
    requires SetAt(root, segs, 0, nv, sizeMax).Done?
    ensures var edited := SetAt(root, segs, 0, nv, sizeMax).v;
            && (|segs| >= depth ==> Depth(edited) >= depth)
            && (|segs| < depth && Depth(nv) > ReplacementBudget(depth, |segs|) ==> Depth(edited) >= depth)
            && (|segs| < depth && Depth(nv) <= ReplacementBudget(depth, |segs|) && Depth(root) < depth
                ==> Depth(edited) < depth)
  {
    Edits.EditedDocument(root, segs, 0, nv, sizeMax);
    hide SetAt, Depth;
  }

  /** What the preflight alone decides: a refusal, or `Ok` for a pointer a value can be set through. */
  function PreflightStatus(root: Value, pointer: Bytes, depth: nat, maxSegments: nat, sizeMax: nat): SpliceStatus {
    match Parse(pointer)
    case None => SettableFail
    case Some(segs) =>
      if pointer != [] && OverLimit(|segs|, depth, maxSegments) then DepthFail
      else match Walk(root, segs, 0, NO_FLAGS, true, sizeMax)
           case Refused(status) => status
           case _ => Ok
  }

  /**
   * Past a well-formed pointer, the preflight refuses one with more segments than allowed or with no fewer than the
   * depth limit, and of the others exactly those through which no value can be set, for the reason why not.
   */
  ghost predicate PreflightMeans(root: Value, pointer: Bytes, segs: seq<Bytes>, depth: nat, maxSegments: nat,
                                 sizeMax: nat, status: SpliceStatus)
  {
    if pointer != [] && (|segs| > maxSegments || (depth > 0 && |segs| >= depth)) then status == DepthFail
    else forall nv ::
      match SetAt(root, segs, 0, nv, sizeMax)
      case Done(_) => status == Ok
      case NotSettable => status == SettableFail
      case AmbiguousKey => status == Ambiguous
  }

  lemma PreflightIsMeant(root: Value, pointer: Bytes, segs: seq<Bytes>, depth: nat, maxSegments: nat, sizeMax: nat)
    requires Parse(pointer) == Some(segs)
    ensures PreflightMeans(root, pointer, segs, depth, maxSegments, sizeMax,
                           PreflightStatus(root, pointer, depth, maxSegments, sizeMax))
  {
    hide Parse, Walk, SetAt;
    WalkRefusesWithAStatus(root, segs, 0, NO_FLAGS, true, sizeMax);
    forall nv
      ensures SetAt(root, segs, 0, nv, sizeMax).Done? <==> !Walk(root, segs, 0, NO_FLAGS, true, sizeMax).Refused?
      ensures SetAt(root, segs, 0, nv, sizeMax).NotSettable?
         <==> Walk(root, segs, 0, NO_FLAGS, true, sizeMax) == Refused(SettableFail)
    {
      PreflightIsExact(root, segs, 0, nv, sizeMax);
    }
  }

  /** The preflight: parse the pointer, then walk it without writing anything. */
  method PlanInit(root: Value, pointer: Bytes, depth: nat, maxSegments: nat, sizeMax: nat)
    returns (status: SpliceStatus, plan: seq<Bytes>)
    ensures status == PreflightStatus(root, pointer, depth, maxSegments, sizeMax)
    ensures status == Ok ==> Parse(pointer) == Some(plan) && (pointer != [] ==> !OverLimit(|plan|, depth, maxSegments))
    ensures status == Ok ==> (pointer == [] <==> plan == [])
    ensures Parse(pointer).None? ==> status == SettableFail
    ensures Parse(pointer).Some? ==>
              PreflightMeans(root, pointer, Parse(pointer).value, depth, maxSegments, sizeMax, status)
  {
    hide ParseFrom, Walk, SetAt, PreflightMeans;
    if Parse(pointer).Some? {
      PreflightIsMeant(root, pointer, Parse(pointer).value, depth, maxSegments, sizeMax);
    }
    var ok;
    ok, status, plan := PointerParse(pointer, depth, maxSegments);
    ParsedIsEmptyOnlyForEmpty(pointer);
    if !ok {
      return;
    }
    var walked := PointerWalk(root, plan, NO_FLAGS, true, sizeMax);
    WalkRefusesWithAStatus(root, plan, 0, NO_FLAGS, true, sizeMax);
    status := if walked.Refused? then walked.status else Ok;
  }

  lemma ParsedIsEmptyOnlyForEmpty(p: Bytes)
    ensures Parse(p).Some? ==> (p == [] <==> Parse(p).value == [])
  {
    hide Unescape;
    if p != [] && p[0] == SLASH && ParseFrom(p, 1).Some? {
      ParsedCount(p, 1);
    }
  }

  lemma {:induction false} WalkRefusesWithAStatus(v: Value, segs: seq<Bytes>, i: nat, flags: Utf8Flags, allow: bool,
                                                  sizeMax: nat)
    requires i <= |segs|
    ensures var r := Walk(v, segs, i, flags, allow, sizeMax);
      r.Refused? ==> r.status == SettableFail || r.status == Ambiguous
    decreases |segs| - i
  {
    hide KeyMatches, MatchCount, LastMatch, IndexOf;
    if i < |segs| {
      match v
      case Obj(members) =>
        if MatchCount(members, segs[i], flags, |members|) == 1 {
          WalkRefusesWithAStatus(members[LastMatch(members, segs[i], flags, |members|)].value, segs, i + 1, flags,
                                 allow, sizeMax);
        }
      case Arr(items) =>
        var index := IndexOf(segs[i], sizeMax);
        if index.Some? && index.value < |items| {
          WalkRefusesWithAStatus(items[index.value], segs, i + 1, flags, allow, sizeMax);
        }
      case _ =>
    }
  }

  /** Each fault of a document has a status of its own. */
  predicate FaultIsReported(fault: Fault, status: SpliceStatus) {
    && (fault == NoFault <==> status == Ok)
    && (fault == TooDeep <==> status == DepthFail)
    && (fault == BadUtf8 <==> status == InvalidUtf8)
    && (fault == NotFinite <==> status == InfOrNan)
  }

  lemma StatusReports(fault: Fault)
    ensures FaultIsReported(fault, StatusOf(fault))
  {
  }

  /**
   * `text` is the edit asked for: `edited` is the document with what the plan names replaced, everything else as and
   * where it was, within the depth limit; and where the numbers of the document and of the new value are spelled by
   * the grammar, a reader of RFC 8259 reads the text as that document.
   */
  ghost predicate IsEditText(text: Bytes, edited: Value, root: Value, plan: seq<Bytes>, nv: Value, depth: nat,
                             sizeMax: nat)
  {
    && IsEdit(root, plan, 0, nv, edited, sizeMax) && Depth(edited) < depth
    && (Reading.Grammatical(root) && Reading.Grammatical(nv) ==> Reading.ReadDocument(text) == Some(edited))
  }

  lemma EditIsReadable(root: Value, plan: seq<Bytes>, nv: Value, st: Style, depth: nat, sizeMax: nat)
    requires SetAt(root, plan, 0, nv, sizeMax).Done?
    requires FirstFault(SetAt(root, plan, 0, nv, sizeMax).v, depth) == NoFault
    ensures var edited := SetAt(root, plan, 0, nv, sizeMax).v;
            IsEditText(Print(edited, 0, st), edited, root, plan, nv, depth, sizeMax)
  {
    var edited := SetAt(root, plan, 0, nv, sizeMax).v;
    hide SetAt, IsEdit, FirstFault, Print, Depth, Encodable, Reading.Grammatical, Reading.ReadDocument;
    SetIsEdit(root, plan, 0, nv, sizeMax);
    FaultFree(edited, depth);
    Edits.EditedDocument(root, plan, 0, nv, sizeMax);
    if Reading.Grammatical(edited) {
      Reading.PrintedReadsBack(edited, 0, st);
    }
  }

  /** Prints the document with the edit applied, given an accepted plan. */
  method PointerSetWrite(root: Value, plan: seq<Bytes>, replacement: Replacement, st: Style,
                         tuning: StringWriter.Tuning,
                         depth: nat, sizeMax: nat, maxLen: nat, ghost nv: Value)
    returns (out: Option<Bytes>, status: SpliceStatus)
    requires tuning.chunk > 0 && |plan| <= depth
    requires replacement.Tree? ==> replacement.v == nv
    requires replacement.Encoded? ==> replacement.text == Print(nv, 0, st) && PlainNumbers(nv)
    requires replacement.Encoded? ==> FirstFault(nv, depth - |plan|) == NoFault
    ensures out.Some? <==> status == Ok
    ensures !SetAt(root, plan, 0, nv, sizeMax).Done? ==> status != Ok
    ensures SetAt(root, plan, 0, nv, sizeMax).Done? ==>
      var edited := SetAt(root, plan, 0, nv, sizeMax).v;
      && (out.Some? ==> out.value == Print(edited, 0, st))
      && (status == TooLarge ==>
            |Print(edited, 0, st)| + Max(6 * LongestText(edited) + 6 * tuning.chunk + 3, 40) > maxLen)
      && (status != TooLarge ==> status == StatusOf(FirstFault(edited, depth)))
      && (status != TooLarge ==> FaultIsReported(FirstFault(edited, depth), status))
      && (out.Some? ==> IsEditText(out.value, edited, root, plan, nv, depth, sizeMax))
  {
    hide Print, FirstFault, PlainNumbers, LongestText, IsEditText, FaultIsReported;
    if SetAt(root, plan, 0, nv, sizeMax).Done? {
      StatusReports(FirstFault(SetAt(root, plan, 0, nv, sizeMax).v, depth));
    }
    var buf := new SmartStr(maxLen);
    var w := new Writer(buf, st, tuning, replacement, plan, sizeMax, nv, depth);
    var ok;
    if |plan| == 0 {
      ok := w.WriteReplacement(depth);
    } else {
      ok := w.WriteAt(root, 0, depth);
    }
    if !ok {
      status := if w.status != Ok then w.status else if w.settable then WriteFail else SettableFail;
      return None, status;
    }
    assert [] + Print(SetAt(root, plan, 0, nv, sizeMax).v, 0, st) == Print(SetAt(root, plan, 0, nv, sizeMax).v, 0, st);
    EditIsReadable(root, plan, nv, st, depth, sizeMax);
    return Some(buf.data[..buf.len]), Ok;
  }
}
