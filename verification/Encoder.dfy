/** The direct-write encoder: it prints PHP values straight into the output buffer. */
module Encoder {
  import opened ByteStrings
  import opened EncodeSteps
  import opened Encoding
  import opened Escape
  import opened Json
  import opened PhpHeap
  import opened Sanitizer
  import opened SmartStr
  import opened Utf8
  import opened Wrappers
  import StringWriter
  import HexEscapes

  /** Room reserved for one integer. */
  const INT_WORST: nat := 24

  /**
   * With this much room left nothing fails for its size while no string or key has more than `n` bytes: a
   * string may be tried again three times as long, and an integer key reserves its worst case and its quotes.
   */
  function Reserve(n: nat, t: StringWriter.Tuning): nat {
    StringWriter.Headroom(3 * n, t) + INT_WORST + 2
  }

  class Context {
    const heap: Heap
    const o: Options
    const tuning: StringWriter.Tuning
    const buf: SmartStr

    var error: Error
    /** A non-finite number was met without partial output: the buffer is gone. */
    var hardError: bool
    /** The traversal for later errors has found one. */
    var discardAborted: bool
    var indentLevel: nat
    /** The recursion bits set on arrays and property tables, and the serializer guards set on objects. */
    var marks: set<nat>
    var guards: set<nat>

    /** No string or key that can be met has more bytes than this. */
    ghost const longest: nat

    ghost predicate Valid()
      reads this, buf
    {
      buf.Valid() && tuning.chunk > 0 && ShortHeap(heap, longest)
    }

    ghost function Snap(): State
      requires Valid()
      reads this, buf, buf.data
    {
      State(error, hardError, discardAborted, indentLevel, marks, guards, buf.Contents(),
            buf.maxLen - Reserve(longest, tuning))
    }

    /** Nothing has stopped the encoding so far. */
    ghost predicate Ready()
      reads this, buf, buf.data
    {
      Valid() && Fine(o, Snap())
    }

    ghost function Scn(): Scene {
      Scene(heap, o)
    }

    constructor (heap: Heap, o: Options, tuning: StringWriter.Tuning, buf: SmartStr, ghost longest: nat)
      requires buf.Valid() && tuning.chunk > 0 && ShortHeap(heap, longest)
      ensures Ready() && this.heap == heap && this.o == o && this.tuning == tuning && this.buf == buf
      ensures this.longest == longest
      ensures Snap() == State(NoError, false, false, 0, {}, {}, buf.Contents(), buf.maxLen - Reserve(longest, tuning))
    {
      this.heap, this.o, this.tuning, this.buf, this.longest := heap, o, tuning, buf, longest;
      error, hardError, discardAborted, indentLevel := NoError, false, false, 0;
      marks, guards := {}, {};
    }

    // -------------------------------------------------------------- scalars

    method FailTooLarge()
      requires Ready()
      modifies this`error
      ensures Valid() && Stopped(o, old(Snap()), Snap(), []) && error == TooLarge
    {
      error := TooLarge;
    }

    method Put(text: Bytes)
      requires Ready()
      modifies buf`len, buf`data, buf.data
      ensures Valid() && (buf.data == old(buf.data) || fresh(buf.data))
      ensures Going(o, old(Snap()), Snap(), [], text)
    {
      buf.Append(text);
    }

    method PartialOrFail(e: Error, zero: bool) returns (ok: bool)
      requires Ready() && e != NoError && e != TooLarge && e != NonFinite
      modifies this`error, buf`len, buf`data, buf.data
      ensures Valid() && (buf.data == old(buf.data) || fresh(buf.data))
      ensures Moved(o, old(Snap()), Snap(), ok, [e], if zero then [DIGIT_0] else NULL_TEXT, [e])
    {
      error := e;
      ok := o.partial;
      assert FirstHard([e]) == e;
      if o.partial {
        buf.Append(if zero then [DIGIT_0] else NULL_TEXT);
      }
    }

    /** One well-formed string with its hex escapes, or nothing and the reason. */
    method WriteQuoted(s: Bytes) returns (size: StringWriter.SizeStatus)
      requires Ready()
      modifies buf`len, buf`data, buf.data
      ensures Valid() && (buf.data == old(buf.data) || fresh(buf.data))
      ensures Snap() == old(Snap()).(text := buf.Contents())
      ensures size.Fine? ==>
              WellFormed(s) && buf.Contents() == old(buf.Contents()) + Quoted(s, o.style.write, o.style.hex)
      ensures size.InvalidUtf8? ==> !WellFormed(s) && buf.Contents() == old(buf.Contents())
      ensures size.TooLarge? ==>
        var text := if WellFormed(s) then Quoted(s, o.style.write, o.style.hex) else [];
        old(buf.len) + |text| + StringWriter.Headroom(|s|, tuning) > buf.maxLen
    {
      hide WellFormed, Body;
      var start := buf.len;
      size := StringWriter.WriteString(buf, s, o.style.write, tuning);
      if !size.Fine? || o.style.hex == NO_HEX {
        return;
      }
      HexEscapes.RewriteOfQuoted(s, o.style.write, o.style.hex);
      hide HexEscapes.Encoded, HexEscapes.HexRewrite;
      assert buf.Contents()[start..] == Quoted(s, o.style.write, NO_HEX);
      assert buf.Contents()[..start] == old(buf.Contents());
      var ok := HexEscapes.ApplyHexEscapes(buf, o.style.hex, start);
      if !ok {
        size := StringWriter.TooLarge;
      }
    }

    /** What stands for a string or key that cannot be spelled. */
    ghost function TextOr(s: Bytes, substitute: Bytes): Bytes {
      match Spelled(s, o)
      case Some(t) => Quoted(t, o.style.write, o.style.hex)
      case None => substitute
    }

    ghost function TextErrors(s: Bytes): seq<Error> {
      if Spelled(s, o).Some? then [] else [Utf8Error]
    }

    /** A string; one that is not well-formed is sanitised and tried again if the flags say so. */
    method EmitString(s: Bytes, isKey: bool) returns (ok: bool)
      requires Ready() && |s| <= longest
      modifies this`error, buf`len, buf`data, buf.data
      ensures Valid() && (buf.data == old(buf.data) || fresh(buf.data))
      ensures Moved(o, old(Snap()), Snap(), ok, TextErrors(s), TextOr(s, if isKey then [QUOTE, QUOTE] else NULL_TEXT),
              TextErrors(s))
    {
      hide WellFormed, Body, Quoted;
      var size := WriteQuoted(s);
      if size.InvalidUtf8? && o.utf8.Handles() {
        var out, n := SanitizeUtf8(s, o.utf8, ForEncode);
        SanitizedIsWellFormed(s, Substitutes(o.utf8, ForEncode), true);
        SanitizedSize(s, Substitutes(o.utf8, ForEncode), true);
        hide Sanitize;
        size := WriteQuoted(out[..n]);
      }
      if size.Fine? {
        return true;
      }
      if size.TooLarge? {
        FailTooLarge();
        return false;
      }
      ok := PartialUtf8(isKey);
    }

    method PartialUtf8(isKey: bool) returns (ok: bool)
      requires Ready()
      modifies this`error, buf`len, buf`data, buf.data
      ensures Valid() && (buf.data == old(buf.data) || fresh(buf.data))
      ensures Moved(o, old(Snap()), Snap(), ok, [Utf8Error], if isKey then [QUOTE, QUOTE] else NULL_TEXT, [Utf8Error])
    {
      error := Utf8Error;
      assert FirstHard([Utf8Error]) == Utf8Error;
      ok := o.partial;
      if o.partial {
        buf.Append(if isKey then [QUOTE, QUOTE] else NULL_TEXT);
      }
    }

    /** Without partial output a non-finite number loses everything written so far. */
    method EmitDouble(lexeme: Bytes, finite: bool) returns (ok: bool)
      requires Ready()
      modifies this`error, this`hardError, buf`len, buf`data, buf.data
      ensures Valid() && (buf.data == old(buf.data) || fresh(buf.data))
      ensures var errors := if finite then [] else [NonFinite];
              Moved(o, old(Snap()), Snap(), ok, errors, if finite then lexeme else [DIGIT_0], errors)
      ensures error != TooLarge
    {
      if finite {
        buf.Append(lexeme);
        return true;
      }
      error := NonFinite;
      assert FirstHard([NonFinite]) == NoError;
      if o.partial {
        buf.Append([DIGIT_0]);
        return true;
      }
      hardError := true;
      buf.Free();
      return false;
    }

    /** Everything but arrays and objects. */
    method EmitScalar(v: Data) returns (ok: bool)
      requires Ready() && !v.Array? && !v.Object? && ShortData(v, longest)
      modifies this`error, this`hardError, buf`len, buf`data, buf.data
      ensures Valid() && (buf.data == old(buf.data) || fresh(buf.data))
      ensures var w := WalkScalar(v, o);
              Moved(o, old(Snap()), Snap(), ok, w.errors, Print(w.tree, old(indentLevel), o.style), w.errors)
    {
      hide WellFormed, Body, Quoted, Spelled, IntText, Going, Stopped;
      match v
      case Nil =>
        Put(NULL_TEXT);
        return true;
      case Truth(b) =>
        Put(if b then TRUE_TEXT else FALSE_TEXT);
        return true;
      case Long(n) =>
        Put(IntText(n));
        return true;
      case Double(lexeme, finite) =>
        ok := EmitDouble(lexeme, finite);
      case Text(s, numeric) =>
        if o.numericCheck && numeric.Some? {
          Put(numeric.value);
          return true;
        }
        ok := EmitString(s, false);
      case Resource =>
        ok := PartialOrFail(Unsupported, false);
    }

    method EmitIntKey(i: int) returns (ok: bool)
      requires Ready()
      modifies this`error, buf`len, buf`data, buf.data
      ensures Valid() && (buf.data == old(buf.data) || fresh(buf.data))
      ensures Moved(o, old(Snap()), Snap(), ok, [], [QUOTE] + IntText(i) + [QUOTE], [])
    {
      hide IntText;
      ghost var s0 := Snap();
      ok := buf.Reserve(INT_WORST + 2);
      if !ok {
        FailTooLarge();
      } else {
        hide Going;
        Put([QUOTE]);
        ghost var s1 := Snap();
        Unmoved(o, s0, s1, [], [QUOTE], 0);
        Put(IntText(i));
        ghost var s2 := Snap();
        Unmoved(o, s1, s2, [], IntText(i), 0);
        Put([QUOTE]);
        InQuotes(o, s0, s1, s2, Snap(), IntText(i));
      }
    }

    /** A key in quotes. Integer keys need no escaping. */
    method EmitKeyName(key: Key) returns (ok: bool)
      requires Ready() && ShortKey(key, longest)
      modifies this`error, buf`len, buf`data, buf.data
      ensures Valid() && (buf.data == old(buf.data) || fresh(buf.data))
      ensures var w := WalkKey(key, o);
              Moved(o, old(Snap()), Snap(), ok, w.errors, Quoted(w.tree, o.style.write, o.style.hex), w.errors)
    {
      match key {
        case Name(s) =>
          assert Quoted([], o.style.write, o.style.hex) == [QUOTE, QUOTE];
          hide WellFormed, Quoted, Spelled, Going, Stopped;
          ok := EmitString(s, true);
        case Index(i) =>
          IntKeyText(i, o.style);
          hide WellFormed, Quoted, IntText, Going, Stopped;
          ok := EmitIntKey(i);
      }
    }

    /** A key, its colon and its space. */
    method EmitKey(key: Key) returns (ok: bool)
      requires Ready() && ShortKey(key, longest)
      modifies this`error, buf`len, buf`data, buf.data
      ensures Valid() && (buf.data == old(buf.data) || fresh(buf.data))
      ensures var w := WalkKey(key, o); Moved(o, old(Snap()), Snap(), ok, w.errors, KeyText(w.tree, o.style), w.errors)
    {
      hide WellFormed, Quoted, WalkKey, Stopped;
      ok := EmitKeyName(key);
      if ok {
        buf.Append([COLON]);
        if o.style.pretty {
          buf.Append([SPACE]);
        }
      }
    }

    // -------------------------------------------------------------- looking for later errors

    ghost predicate Muted()
      reads this, buf, buf.data
    {
      Valid() && Silent(o, Snap())
    }

    method DiscardFail(e: Error) returns (ok: bool)
      requires Muted() && e != NoError && e != NonFinite && e != TooLarge
      modifies this`error
      ensures Valid() && Discarded(old(Snap()), Snap(), ok, [e])
    {
      error := e;
      assert FirstHard([e]) == e;
      return false;
    }

    method DiscardString(s: Bytes) returns (ok: bool)
      requires Muted() && |s| <= longest
      modifies this`error
      ensures Valid() && Discarded(old(Snap()), Snap(), ok, TextErrors(s))
    {
      hide WellFormed;
      if 6 * |s| + 2 > buf.maxLen {
        error := TooLarge;
        return false;
      }
      var valid := Utf8WellFormed(s);
      if o.utf8.Handles() || valid {
        return true;
      }
      ok := DiscardFail(Utf8Error);
    }

    method DiscardKey(key: Key) returns (ok: bool)
      requires Muted() && ShortKey(key, longest)
      modifies this`error
      ensures Valid() && Discarded(old(Snap()), Snap(), ok, WalkKey(key, o).errors)
    {
      hide WellFormed;
      if key.Index? {
        return true;
      }
      ok := DiscardString(key.s);
    }

    method DiscardScalar(v: Data) returns (ok: bool)
      requires Muted() && !v.Array? && !v.Object? && ShortData(v, longest)
      modifies this`error
      ensures Valid() && Discarded(old(Snap()), Snap(), ok, WalkScalar(v, o).errors)
    {
      hide WellFormed;
      assert FirstHard([NonFinite]) == NoError;
      match v
      case Text(s, numeric) =>
        if o.numericCheck && numeric.Some? {
          return true;
        }
        ok := DiscardString(s);
      case Resource =>
        ok := DiscardFail(Unsupported);
      case _ =>
        return true;
    }

    /** Serializers are not called again: what they would return stays unknown. */
    method DiscardZval(v: Data, remaining: nat) returns (ok: bool)
      requires Muted() && ShortData(v, longest)
      modifies this`error, this`marks
      ensures Valid() && Discarded(old(Snap()), Snap(), ok,
                                   Walk(Scn(), v, PlaceOf(old(Snap()), remaining), true).errors)
      decreases remaining, 3
    {
      hide Discarded, WalkElems, WalkObject;
      match v
      case Array(id) =>
        ok := DiscardArray(id, remaining);
      case Object(id) =>
        ShortInside(heap, id, longest);
        match KindOf(heap, id) {
          case Serializable(_) =>
            NothingDiscarded(Snap());
            return true;
          case Enum(Unbacked) =>
            ok := DiscardFail(NonBackedEnum);
          case Enum(BackedByInt(n)) =>
            ok := DiscardScalar(Long(n));
          case Enum(BackedByString(t, numeric)) =>
            ok := DiscardScalar(Text(t, numeric));
          case Plain =>
            ok := DiscardObject(id, remaining);
        }
      case _ =>
        ok := DiscardScalar(v);
    }

    method DiscardArray(id: nat, remaining: nat) returns (ok: bool)
      requires Muted()
      modifies this`error, this`marks
      ensures Valid() && Discarded(old(Snap()), Snap(), ok,
                                   Walk(Scn(), Array(id), PlaceOf(old(Snap()), remaining), true).errors)
      decreases remaining, 2
    {
      hide FirstHard, WalkElems;
      if remaining == 0 {
        ok := DiscardFail(DepthError);
        return;
      }
      if id in marks {
        ok := DiscardFail(RecursionError);
        return;
      }
      marks := marks + {id};
      ok := DiscardElems(id, remaining - 1);
      marks := marks - {id};
    }

    method DiscardElems(id: nat, remaining: nat) returns (ok: bool)
      requires Muted()
      modifies this`error, this`marks
      ensures Valid() && Discarded(old(Snap()), Snap(), ok,
                                   WalkElems(Scn(), id, PlaceOf(old(Snap()), remaining), true).errors)
      decreases remaining, 6
    {
      HushedStart(o);
      hide Hushed, FirstHard, Discarded;
      var elems := Elems(heap, id);
      ShortInside(heap, id, longest);
      if !o.forceObject && IsList(elems) {
        ok := DiscardItems(elems, 0, remaining, true);
      } else {
        ok := DiscardMembers(elems, 0, remaining, true);
      }
    }

    method DiscardObject(id: nat, remaining: nat) returns (ok: bool)
      requires Muted()
      modifies this`error, this`marks
      ensures Valid() && Discarded(old(Snap()), Snap(), ok,
                                   WalkObject(Scn(), id, PlaceOf(old(Snap()), remaining), true).errors)
      decreases remaining, 2
    {
      hide FirstHard, WalkProps, Hushed;
      if remaining == 0 {
        ok := DiscardFail(DepthError);
        return;
      }
      if Props(heap, id).None? {
        NothingDiscarded(Snap());
        return true;
      }
      if id in marks {
        ok := DiscardFail(RecursionError);
        return;
      }
      ShortInside(heap, id, longest);
      marks := marks + {id};
      NoPropsYet(Scn(), Props(heap, id).value, PlaceOf(Snap(), remaining - 1));
      ok := DiscardProps(Props(heap, id).value, 0, remaining - 1, true);
      marks := marks - {id};
    }

    method DiscardMember(key: Key, value: Data, remaining: nat) returns (ok: bool)
      requires Muted() && ShortKey(key, longest) && ShortData(value, longest)
      modifies this`error, this`marks
      ensures Valid() && Discarded(old(Snap()), Snap(), ok,
                                   WalkMember(Scn(), key, value, PlaceOf(old(Snap()), remaining), true).errors)
      decreases remaining, 4
    {
      hide Walk, WalkKey, WalkMember, FirstHard;
      MemberWalk(Scn(), key, value, PlaceOf(Snap(), remaining), true);
      FirstHardAppend(WalkKey(key, o).errors, Walk(Scn(), value, PlaceOf(Snap(), remaining), true).errors);
      ok := DiscardKey(key);
      if ok {
        ok := DiscardZval(value, remaining);
      }
    }

    /** The elements of a list from `from` on. */
    method DiscardItems(elems: seq<Elem>, from: nat, remaining: nat, ghost quiet: bool) returns (ok: bool)
      requires Muted() && from <= |elems| && ShortElems(elems, longest)
      requires Hushed(o, quiet, WalkItems(Scn(), elems, from, PlaceOf(Snap(), remaining), quiet).errors)
      modifies this`error, this`marks
      ensures Valid() && Discarded(old(Snap()), Snap(), ok,
                                   WalkItems(Scn(), elems, |elems|, PlaceOf(old(Snap()), remaining), quiet).errors)
      decreases remaining, 5
    {
      hide Walk, WalkMember, WalkItems, FirstHard;
      ghost var s, p := Scn(), PlaceOf(Snap(), remaining);
      for k := from to |elems|
        invariant Valid() && Snap() == old(Snap())
        invariant Hushed(o, quiet, WalkItems(s, elems, k, p, quiet).errors)
      {
        HushedItem(s, elems, k, p, quiet);
        ok := DiscardZval(elems[k].value, remaining);
        if !ok {
          return;
        }
      }
      return true;
    }

    /** The elements of an array printed as an object, from `from` on. */
    method DiscardMembers(elems: seq<Elem>, from: nat, remaining: nat, ghost quiet: bool) returns (ok: bool)
      requires Muted() && from <= |elems| && ShortElems(elems, longest)
      requires Hushed(o, quiet, WalkMembers(Scn(), elems, from, PlaceOf(Snap(), remaining), quiet).errors)
      modifies this`error, this`marks
      ensures Valid() && Discarded(old(Snap()), Snap(), ok,
                                   WalkMembers(Scn(), elems, |elems|, PlaceOf(old(Snap()), remaining), quiet).errors)
      decreases remaining, 5
    {
      hide Walk, WalkMember, WalkMembers, FirstHard;
      ghost var s, p := Scn(), PlaceOf(Snap(), remaining);
      for k := from to |elems|
        invariant Valid() && Snap() == old(Snap())
        invariant Hushed(o, quiet, WalkMembers(s, elems, k, p, quiet).errors)
      {
        HushedMember(s, elems, k, p, quiet);
        ok := DiscardMember(elems[k].key, elems[k].value, remaining);
        if !ok {
          return;
        }
      }
      return true;
    }

    /** The properties of an object from `from` on; getters stay uncalled. */
    method DiscardProps(props: seq<Prop>, from: nat, remaining: nat, ghost quiet: bool) returns (ok: bool)
      requires Muted() && from <= |props| && ShortProps(props, longest)
      requires Hushed(o, quiet, WalkProps(Scn(), props, from, PlaceOf(Snap(), remaining), quiet).errors)
      modifies this`error, this`marks
      ensures Valid() && Discarded(old(Snap()), Snap(), ok,
                                   WalkProps(Scn(), props, |props|, PlaceOf(old(Snap()), remaining), quiet).errors)
      decreases remaining, 5
    {
      hide Walk, WalkMember, WalkProps, FirstHard;
      ghost var s, p := Scn(), PlaceOf(Snap(), remaining);
      for k := from to |props|
        invariant Valid() && Snap() == old(Snap())
        invariant Hushed(o, quiet, WalkProps(s, props, k, p, quiet).errors)
      {
        HushedProp(s, props, k, p, quiet);
        var prop := props[k];
        if Mangled(prop.key) || !prop.slot.Held? {
          continue;
        }
        ok := DiscardMember(prop.key, prop.slot.value, remaining);
        if !ok {
          return;
        }
      }
      return true;
    }

    // -------------------------------------------------------------- values

    /** The comma and newline before a container's n-th element. */
    method PutLead(first: bool, ghost n: nat)
      requires Ready() && (first <==> n == 0)
      modifies buf`len, buf`data, buf.data
      ensures Valid() && (buf.data == old(buf.data) || fresh(buf.data))
      ensures Going(o, old(Snap()), Snap(), [], Lead(n, indentLevel, o.style))
    {
      buf.AppendLead(first, o.style.pretty, indentLevel);
    }

    method EmitItem(first: bool, v: Data, remaining: nat, ghost n: nat) returns (ok: bool)
      requires Ready() && (first <==> n == 0) && ShortData(v, longest)
      modifies this`error, this`hardError, this`discardAborted, this`indentLevel, this`marks, this`guards
      modifies buf`len, buf`data, buf.data
      ensures Valid() && (buf.data == old(buf.data) || fresh(buf.data))
      ensures var w := Walk(Scn(), v, PlaceOf(old(Snap()), remaining), false);
              Moved(o, old(Snap()), Snap(), ok, w.errors,
                   Lead(n, old(indentLevel), o.style) + Print(w.tree, old(indentLevel), o.style), w.errors)
      decreases remaining, Free(heap, guards), 4, 0
    {
      ghost var s0 := Snap();
      PutLead(first, n);
      ghost var s1 := Snap();
      Unmoved(o, s0, s1, [], Lead(n, indentLevel, o.style), remaining);
      ghost var w := Walk(Scn(), v, PlaceOf(s1, remaining), false);
      ok := EncodeZval(v, remaining);
      hide *;
      AfterLead(o, s0, s1, Snap(), ok, Lead(n, s0.indent, o.style), w.errors, Print(w.tree, s0.indent, o.style));
    }

    method EmitLeadKey(first: bool, key: Key, ghost n: nat) returns (ok: bool)
      requires Ready() && (first <==> n == 0) && ShortKey(key, longest)
      modifies this`error, buf`len, buf`data, buf.data
      ensures Valid() && (buf.data == old(buf.data) || fresh(buf.data))
      ensures var k := WalkKey(key, o);
              Moved(o, old(Snap()), Snap(), ok, k.errors, Lead(n, old(indentLevel), o.style) + KeyText(k.tree, o.style),
                    k.errors)
    {
      hide Print, Lead, KeyText, WalkKey, FirstHard, Stopped;
      ghost var s0 := Snap();
      PutLead(first, n);
      ghost var s1 := Snap();
      ghost var k := WalkKey(key, o);
      ok := EmitKey(key);
      AfterLead(o, s0, s1, Snap(), ok, Lead(n, s0.indent, o.style), k.errors, KeyText(k.tree, o.style));
    }

    method EmitMember(first: bool, key: Key, v: Data, remaining: nat, ghost n: nat) returns (ok: bool)
      requires Ready() && (first <==> n == 0) && ShortKey(key, longest) && ShortData(v, longest)
      modifies this`error, this`hardError, this`discardAborted, this`indentLevel, this`marks, this`guards
      modifies buf`len, buf`data, buf.data
      ensures Valid() && (buf.data == old(buf.data) || fresh(buf.data))
      ensures var w := WalkMember(Scn(), key, v, PlaceOf(old(Snap()), remaining), false);
              Moved(o, old(Snap()), Snap(), ok, w.errors, PieceText(w.tree, n, old(indentLevel), o.style), w.errors)
      decreases remaining, Free(heap, guards), 4, 0
    {
      hide Print, Lead, KeyText, Walk, WalkKey, FirstHard, Going, Stopped;
      ghost var s0 := Snap();
      KeyErrors(key, o);
      ghost var k, w := WalkKey(key, o), Walk(Scn(), v, PlaceOf(s0, remaining), false);
      ghost var named := Lead(n, s0.indent, o.style) + KeyText(k.tree, o.style);
      ok := EmitLeadKey(first, key, n);
      ghost var s1 := Snap();
      if !ok {
        KeyFailed(o, s0, s1, k.errors, w.errors, named, Print(w.tree, s0.indent, o.style));
        return;
      }
      Unmoved(o, s0, s1, k.errors, named, remaining);
      ok := EncodeZval(v, remaining);
      After(o, s0, s1, Snap(), ok, k.errors, named, w.errors, Print(w.tree, s0.indent, o.style));
    }

    method EncodeZval(v: Data, remaining: nat) returns (ok: bool)
      requires Ready() && ShortData(v, longest)
      modifies this`error, this`hardError, this`discardAborted, this`indentLevel, this`marks, this`guards
      modifies buf`len, buf`data, buf.data
      ensures Valid() && (buf.data == old(buf.data) || fresh(buf.data))
      ensures var w := Walk(Scn(), v, PlaceOf(old(Snap()), remaining), false);
              Moved(o, old(Snap()), Snap(), ok, w.errors, Print(w.tree, old(indentLevel), o.style), w.errors)
      decreases remaining, Free(heap, guards), 3
    {
      hide Print, FirstHard, WalkElems, WalkObject, IntText, WellFormed, Going, Stopped;
      match v
      case Array(id) =>
        ok := EmitArray(id, remaining);
      case Object(id) =>
        ShortInside(heap, id, longest);
        match KindOf(heap, id) {
          case Serializable(result) =>
            ok := EmitJsonSerializable(id, result, remaining);
          case Enum(Unbacked) =>
            SubstituteText(indentLevel, o.style);
            ok := PartialOrFail(NonBackedEnum, true);
          case Enum(BackedByInt(n)) =>
            ok := EmitScalar(Long(n));
          case Enum(BackedByString(t, numeric)) =>
            ok := EmitScalar(Text(t, numeric));
          case Plain =>
            ok := EmitObject(id, remaining);
        }
      case _ =>
        ok := EmitScalar(v);
    }

    /** An array, which must not be one of those being walked. */
    method EmitArray(id: nat, remaining: nat) returns (ok: bool)
      requires Ready()
      modifies this`error, this`hardError, this`discardAborted, this`indentLevel, this`marks, this`guards
      modifies buf`len, buf`data, buf.data
      ensures Valid() && (buf.data == old(buf.data) || fresh(buf.data))
      ensures var w := Walk(Scn(), Array(id), PlaceOf(old(Snap()), remaining), false);
              Moved(o, old(Snap()), Snap(), ok, w.errors, Print(w.tree, old(indentLevel), o.style), w.errors)
      decreases remaining, Free(heap, guards), 2
    {
      SubstituteText(indentLevel, o.style);
      hide Print, FirstHard, Walk, WalkElems, Going, Stopped;
      ghost var s0, p := Snap(), PlaceOf(Snap(), remaining);
      ArrayWalk(Scn(), id, p, false);
      if remaining == 0 {
        ok := PartialOrFail(DepthError, false);
        return;
      }
      if id in marks {
        ok := PartialOrFail(RecursionError, false);
        return;
      }
      ghost var w := WalkElems(Scn(), id, Inside(p, id), false);
      marks := marks + {id};
      ok := EmitElems(id, remaining - 1);
      ghost var s1 := Snap();
      marks := marks - {id};
      MarkCleared(o, s0, s1, id, ok, w.errors, Print(w.tree, s0.indent, o.style));
    }

    method EmitElems(id: nat, remaining: nat) returns (ok: bool)
      requires Ready()
      modifies this`error, this`hardError, this`discardAborted, this`indentLevel, this`marks, this`guards
      modifies buf`len, buf`data, buf.data
      ensures Valid() && (buf.data == old(buf.data) || fresh(buf.data))
      ensures var w := WalkElems(Scn(), id, PlaceOf(old(Snap()), remaining), false);
              Moved(o, old(Snap()), Snap(), ok, w.errors, Print(w.tree, old(indentLevel), o.style), w.errors)
      decreases remaining, Free(heap, guards), 6
    {
      hide Print, Going, Stopped, WalkItems, WalkMembers;
      var elems := Elems(heap, id);
      ShortInside(heap, id, longest);
      if !o.forceObject && IsList(elems) {
        ok := EmitList(elems, remaining);
      } else {
        ok := EmitMap(elems, remaining);
      }
    }

    /** The opening bracket; elements of a non-empty container sit one level deeper. */
    method Open(bracket: Byte, nonEmpty: bool)
      requires Ready()
      modifies this`indentLevel, buf`len, buf`data, buf.data
      ensures Valid() && (buf.data == old(buf.data) || fresh(buf.data))
      ensures Opened(o, old(Snap()), Snap(), bracket, nonEmpty)
    {
      indentLevel := buf.OpenBracket(bracket, o.style.pretty && nonEmpty, indentLevel);
    }

    /** Back out one level and close. */
    method Close(bracket: Byte, nonEmpty: bool, ghost n: nat, ghost level: nat)
      requires Ready() && (nonEmpty <==> n > 0)
      requires Snap().indent == if nonEmpty then Inner(level, o.style) else level
      modifies this`indentLevel, buf`len, buf`data, buf.data
      ensures Valid() && (buf.data == old(buf.data) || fresh(buf.data))
      ensures Snap() == old(Snap()).(indent := level, text := old(Snap()).text + (Trail(n, level, o.style) + [bracket]))
    {
      indentLevel := buf.CloseBracket(bracket, o.style.pretty && nonEmpty, indentLevel);
    }

    /** After a failure only the indentation is put back. */
    method Unindent(nonEmpty: bool, ghost level: nat)
      requires Valid() && Snap().indent == if nonEmpty then Inner(level, o.style) else level
      modifies this`indentLevel
      ensures Valid() && Snap() == old(Snap()).(indent := level)
    {
      if o.style.pretty && nonEmpty {
        indentLevel := indentLevel - 1;
      }
    }

    /** A list in brackets. */
    method EmitList(elems: seq<Elem>, remaining: nat) returns (ok: bool)
      requires Ready() && ShortElems(elems, longest)
      modifies this`error, this`hardError, this`discardAborted, this`indentLevel, this`marks, this`guards
      modifies buf`len, buf`data, buf.data
      ensures Valid() && (buf.data == old(buf.data) || fresh(buf.data))
      ensures var w := WalkItems(Scn(), elems, |elems|, PlaceOf(old(Snap()), remaining), false);
              Moved(o, old(Snap()), Snap(), ok, w.errors, Print(Arr(w.tree), old(indentLevel), o.style), w.errors)
      decreases remaining, Free(heap, guards), 5, |elems| + 1
    {
      hide Print, PrintItems, WalkItems, Trail, Going, Stopped;
      ghost var s0 := Snap();
      ghost var w := WalkItems(Scn(), elems, |elems|, PlaceOf(s0, remaining), false);
      ghost var body := PrintItems(w.tree, |elems|, Inner(s0.indent, o.style), o.style);
      ArrayText(s0.text, w.tree, s0.indent, o.style);
      NothingPrinted(w.tree, [], s0.indent, Inner(s0.indent, o.style), o.style);
      Open(LEFT_BRACKET, |elems| > 0);
      ghost var s1 := Snap();
      OpenedIsFine(o, s0, s1, LEFT_BRACKET, |elems| > 0, remaining);
      ok := EmitItems(elems, remaining);
      ghost var s2 := Snap();
      if ok {
        Framed(o, s0, s1, s2, LEFT_BRACKET, |elems| > 0, w.errors, body);
        Close(RIGHT_BRACKET, |elems| > 0, |elems|, s0.indent);
        Bracketed(o, s0, s1, s2, Snap(), LEFT_BRACKET, |elems| > 0, w.errors, body,
                  Trail(|elems|, s0.indent, o.style) + [RIGHT_BRACKET], Print(Arr(w.tree), s0.indent, o.style));
      } else {
        FramedStop(o, s0, s1, s2, LEFT_BRACKET, |elems| > 0, w.errors, body);
        Unindent(|elems| > 0, s0.indent);
        Unbracketed(o, s0, s1, s2, Snap(), LEFT_BRACKET, |elems| > 0, w.errors, body,
                    Trail(|elems|, s0.indent, o.style) + [RIGHT_BRACKET], Print(Arr(w.tree), s0.indent, o.style));
      }
    }

    /** An array printed as an object. */
    method EmitMap(elems: seq<Elem>, remaining: nat) returns (ok: bool)
      requires Ready() && ShortElems(elems, longest)
      modifies this`error, this`hardError, this`discardAborted, this`indentLevel, this`marks, this`guards
      modifies buf`len, buf`data, buf.data
      ensures Valid() && (buf.data == old(buf.data) || fresh(buf.data))
      ensures var w := WalkMembers(Scn(), elems, |elems|, PlaceOf(old(Snap()), remaining), false);
              Moved(o, old(Snap()), Snap(), ok, w.errors, Print(Obj(w.tree), old(indentLevel), o.style), w.errors)
      decreases remaining, Free(heap, guards), 5, |elems| + 1
    {
      hide Print, PrintMembers, WalkMembers, Trail, Going, Stopped;
      ghost var s0 := Snap();
      ghost var w := WalkMembers(Scn(), elems, |elems|, PlaceOf(s0, remaining), false);
      ghost var body := PrintMembers(w.tree, |elems|, Inner(s0.indent, o.style), o.style);
      ObjectText(s0.text, w.tree, s0.indent, o.style);
      NothingPrinted([], w.tree, s0.indent, Inner(s0.indent, o.style), o.style);
      Open(LEFT_BRACE, |elems| > 0);
      ghost var s1 := Snap();
      OpenedIsFine(o, s0, s1, LEFT_BRACE, |elems| > 0, remaining);
      ok := EmitMembers(elems, remaining);
      ghost var s2 := Snap();
      if ok {
        Framed(o, s0, s1, s2, LEFT_BRACE, |elems| > 0, w.errors, body);
        Close(RIGHT_BRACE, |elems| > 0, |elems|, s0.indent);
        Bracketed(o, s0, s1, s2, Snap(), LEFT_BRACE, |elems| > 0, w.errors, body,
                  Trail(|elems|, s0.indent, o.style) + [RIGHT_BRACE], Print(Obj(w.tree), s0.indent, o.style));
      } else {
        FramedStop(o, s0, s1, s2, LEFT_BRACE, |elems| > 0, w.errors, body);
        Unindent(|elems| > 0, s0.indent);
        Unbracketed(o, s0, s1, s2, Snap(), LEFT_BRACE, |elems| > 0, w.errors, body,
                    Trail(|elems|, s0.indent, o.style) + [RIGHT_BRACE], Print(Obj(w.tree), s0.indent, o.style));
      }
    }

    /** The end of a search for later errors: whatever it found stops everything. */
    method Conclude(clear: bool, ghost a: State, ghost all: seq<Error>)
      requires Valid() && Silent(o, a) && Discarded(a, Snap(), clear, all) && all != [] && all[0] == NonFinite
      modifies this`discardAborted
      ensures Valid() && Stopped(o, a, Snap(), all) && NoNewRoom(a, Snap())
    {
      if !clear {
        discardAborted := true;
      }
    }

    method SalvageItems(elems: seq<Elem>, k: nat, remaining: nat)
      requires Valid() && k < |elems| && ShortElems(elems, longest)
      requires Failing(o, Snap(), WalkItems(Scn(), elems, k + 1, PlaceOf(Snap(), remaining), false).errors)
      modifies this`error, this`discardAborted, this`marks
      ensures var all := WalkItems(Scn(), elems, |elems|, PlaceOf(old(Snap()), remaining), false).errors;
              Valid() && Stopped(o, old(Snap()), Snap(), all) && NoNewRoom(old(Snap()), Snap())
    {
      ghost var s, p, a := Scn(), PlaceOf(Snap(), remaining), Snap();
      ghost var part, all := WalkItems(s, elems, k + 1, p, false).errors, WalkItems(s, elems, |elems|, p, false).errors;
      ItemsExtend(s, elems, k + 1, |elems|, p, false);
      hide WalkItems, FirstHard, Failing, Stopped, Going, Discarded, Silent, Hushed;
      Salvageable(o, a, part, all);
      if hardError && !discardAborted {
        var clear := DiscardItems(elems, k + 1, remaining, false);
        Conclude(clear, a, all);
      }
    }

    /** One element of a list; after a non-finite number, the rest is searched for other errors. */
    method EmitNextItem(elems: seq<Elem>, k: nat, remaining: nat) returns (ok: bool)
      requires Ready() && k < |elems| && ShortElems(elems, longest)
      requires WalkItems(Scn(), elems, k, PlaceOf(Snap(), remaining), false).errors == [] || o.partial
      modifies this`error, this`hardError, this`discardAborted, this`indentLevel, this`marks, this`guards
      modifies buf`len, buf`data, buf.data
      ensures Valid() && (buf.data == old(buf.data) || fresh(buf.data))
      ensures var w := Walk(Scn(), elems[k].value, PlaceOf(old(Snap()), remaining), false);
              Moved(o, old(Snap()), Snap(), ok, w.errors,
                    Lead(k, old(indentLevel), o.style) + Print(w.tree, old(indentLevel), o.style),
                   WalkItems(Scn(), elems, |elems|, PlaceOf(old(Snap()), remaining), false).errors)
      decreases remaining, Free(heap, guards), 4, 1
    {
      ghost var s0, p := Snap(), PlaceOf(Snap(), remaining);
      ghost var w := Walk(Scn(), elems[k].value, p, false);
      ghost var before, e := WalkItems(Scn(), elems, k, p, false).errors, w.errors;
      ghost var piece := Lead(k, s0.indent, o.style) + Print(w.tree, s0.indent, o.style);
      ItemsStep(Scn(), elems, k, p);
      hide Walk, WalkMember, WalkItems, Print, Lead, KeyText, FirstHard, Shown, Going, Failing;
      ok := EmitItem(k == 0, elems[k].value, remaining, k);
      if !ok {
        FailedSoFar(o, Snap(), before, e);
        StoppedPlace(o, s0, Snap(), e, remaining);
        ghost var s1 := Snap();
        SalvageItems(elems, k, remaining);
        StoppedTwice(o, s0, s1, Snap(), e, piece, WalkItems(Scn(), elems, |elems|, p, false).errors);
      }
    }

    method EmitItemTurn(elems: seq<Elem>, k: nat, remaining: nat, ghost s0: State) returns (ok: bool)
      requires Valid() && k < |elems| && ShortElems(elems, longest)
      requires InItems(Scn(), elems, k, s0, Snap(), remaining)
      modifies this`error, this`hardError, this`discardAborted, this`indentLevel, this`marks, this`guards
      modifies buf`len, buf`data, buf.data
      ensures Valid() && (buf.data == old(buf.data) || fresh(buf.data))
      ensures ok ==> InItems(Scn(), elems, k + 1, s0, Snap(), remaining) && guards == old(guards)
      ensures var w := WalkItems(Scn(), elems, |elems|, PlaceOf(s0, remaining), false);
              !ok ==> Moved(o, s0, Snap(), false, w.errors, PrintItems(w.tree, |elems|, s0.indent, o.style), w.errors)
      decreases remaining, Free(heap, guards), 5, k
    {
      hide WalkItems, Walk, WalkMember, PrintItems, Print, Lead, KeyText, FirstHard, Going, Stopped;
      ghost var s1 := Snap();
      ItemsHere(Scn(), elems, k, s0, s1, remaining);
      ok := EmitNextItem(elems, k, remaining);
      ItemsContinue(Scn(), elems, k, s0, s1, Snap(), remaining, ok);
      if ok {
        ItemsHere(Scn(), elems, k + 1, s0, Snap(), remaining);
      }
    }

    /** The elements of a list. */
    method EmitItems(elems: seq<Elem>, remaining: nat) returns (ok: bool)
      requires Ready() && ShortElems(elems, longest)
      modifies this`error, this`hardError, this`discardAborted, this`indentLevel, this`marks, this`guards
      modifies buf`len, buf`data, buf.data
      ensures Valid() && (buf.data == old(buf.data) || fresh(buf.data))
      ensures var w := WalkItems(Scn(), elems, |elems|, PlaceOf(old(Snap()), remaining), false);
              Moved(o, old(Snap()), Snap(), ok, w.errors, PrintItems(w.tree, |elems|, old(indentLevel), o.style),
                    w.errors)
      decreases remaining, Free(heap, guards), 5, |elems|
    {
      hide WalkItems, PrintItems, FirstHard, Going, Stopped;
      ghost var s0 := Snap();
      ItemsStart(Scn(), elems, s0, remaining);
      for k := 0 to |elems|
        invariant Valid() && (buf.data == old(buf.data) || fresh(buf.data))
        invariant InItems(Scn(), elems, k, s0, Snap(), remaining) && guards == old(guards)
      {
        ok := EmitItemTurn(elems, k, remaining, s0);
        if !ok {
          return;
        }
      }
      return true;
    }

    method SalvageMembers(elems: seq<Elem>, k: nat, remaining: nat)
      requires Valid() && k < |elems| && ShortElems(elems, longest)
      requires Failing(o, Snap(), WalkMembers(Scn(), elems, k + 1, PlaceOf(Snap(), remaining), false).errors)
      modifies this`error, this`discardAborted, this`marks
      ensures var all := WalkMembers(Scn(), elems, |elems|, PlaceOf(old(Snap()), remaining), false).errors;
              Valid() && Stopped(o, old(Snap()), Snap(), all) && NoNewRoom(old(Snap()), Snap())
    {
      ghost var s, p, a := Scn(), PlaceOf(Snap(), remaining), Snap();
      ghost var part, all := WalkMembers(s, elems, k + 1, p, false).errors,
          WalkMembers(s, elems, |elems|, p, false).errors;
      MembersExtend(s, elems, k + 1, |elems|, p, false);
      hide WalkMembers, FirstHard, Failing, Stopped, Going, Discarded, Silent, Hushed;
      Salvageable(o, a, part, all);
      if hardError && !discardAborted {
        var clear := DiscardMembers(elems, k + 1, remaining, false);
        Conclude(clear, a, all);
      }
    }

    /** One element of an array printed as an object. */
    method EmitNextMember(elems: seq<Elem>, k: nat, remaining: nat) returns (ok: bool)
      requires Ready() && k < |elems| && ShortElems(elems, longest)
      requires WalkMembers(Scn(), elems, k, PlaceOf(Snap(), remaining), false).errors == [] || o.partial
      modifies this`error, this`hardError, this`discardAborted, this`indentLevel, this`marks, this`guards
      modifies buf`len, buf`data, buf.data
      ensures Valid() && (buf.data == old(buf.data) || fresh(buf.data))
      ensures var w := WalkMember(Scn(), elems[k].key, elems[k].value, PlaceOf(old(Snap()), remaining), false);
              Moved(o, old(Snap()), Snap(), ok, w.errors, PieceText(w.tree, k, old(indentLevel), o.style),
                   WalkMembers(Scn(), elems, |elems|, PlaceOf(old(Snap()), remaining), false).errors)
      decreases remaining, Free(heap, guards), 4, 1
    {
      ghost var s0, p := Snap(), PlaceOf(Snap(), remaining);
      ghost var w := WalkMember(Scn(), elems[k].key, elems[k].value, p, false);
      ghost var before, e := WalkMembers(Scn(), elems, k, p, false).errors, w.errors;
      ghost var piece := PieceText(w.tree, k, s0.indent, o.style);
      MembersStep(Scn(), elems, k, p);
      hide Walk, WalkMember, WalkMembers, Print, Lead, KeyText, FirstHard, Shown, Going, Failing;
      ok := EmitMember(k == 0, elems[k].key, elems[k].value, remaining, k);
      if !ok {
        FailedSoFar(o, Snap(), before, e);
        StoppedPlace(o, s0, Snap(), e, remaining);
        ghost var s1 := Snap();
        SalvageMembers(elems, k, remaining);
        StoppedTwice(o, s0, s1, Snap(), e, piece, WalkMembers(Scn(), elems, |elems|, p, false).errors);
      }
    }

    method EmitMemberTurn(elems: seq<Elem>, k: nat, remaining: nat, ghost s0: State) returns (ok: bool)
      requires Valid() && k < |elems| && ShortElems(elems, longest)
      requires InMembers(Scn(), elems, k, s0, Snap(), remaining)
      modifies this`error, this`hardError, this`discardAborted, this`indentLevel, this`marks, this`guards
      modifies buf`len, buf`data, buf.data
      ensures Valid() && (buf.data == old(buf.data) || fresh(buf.data))
      ensures ok ==> InMembers(Scn(), elems, k + 1, s0, Snap(), remaining) && guards == old(guards)
      ensures var w := WalkMembers(Scn(), elems, |elems|, PlaceOf(s0, remaining), false);
              !ok ==> Moved(o, s0, Snap(), false, w.errors, PrintMembers(w.tree, |elems|, s0.indent, o.style), w.errors)
      decreases remaining, Free(heap, guards), 5, k
    {
      hide WalkMembers, Walk, WalkMember, PrintMembers, Print, Lead, KeyText, FirstHard, Going, Stopped;
      ghost var s1 := Snap();
      MembersHere(Scn(), elems, k, s0, s1, remaining);
      ok := EmitNextMember(elems, k, remaining);
      MembersContinue(Scn(), elems, k, s0, s1, Snap(), remaining, ok);
      if ok {
        MembersHere(Scn(), elems, k + 1, s0, Snap(), remaining);
      }
    }

    /** The elements of an array printed as an object. */
    method EmitMembers(elems: seq<Elem>, remaining: nat) returns (ok: bool)
      requires Ready() && ShortElems(elems, longest)
      modifies this`error, this`hardError, this`discardAborted, this`indentLevel, this`marks, this`guards
      modifies buf`len, buf`data, buf.data
      ensures Valid() && (buf.data == old(buf.data) || fresh(buf.data))
      ensures var w := WalkMembers(Scn(), elems, |elems|, PlaceOf(old(Snap()), remaining), false);
              Moved(o, old(Snap()), Snap(), ok, w.errors, PrintMembers(w.tree, |elems|, old(indentLevel), o.style),
                    w.errors)
      decreases remaining, Free(heap, guards), 5, |elems|
    {
      hide WalkMembers, PrintMembers, FirstHard, Going, Stopped;
      ghost var s0 := Snap();
      MembersStart(Scn(), elems, s0, remaining);
      for k := 0 to |elems|
        invariant Valid() && (buf.data == old(buf.data) || fresh(buf.data))
        invariant InMembers(Scn(), elems, k, s0, Snap(), remaining) && guards == old(guards)
      {
        ok := EmitMemberTurn(elems, k, remaining, s0);
        if !ok {
          return;
        }
      }
      return true;
    }

    method SalvageProps(props: seq<Prop>, k: nat, remaining: nat)
      requires Valid() && k < |props| && ShortProps(props, longest)
      requires Failing(o, Snap(), WalkProps(Scn(), props, k + 1, PlaceOf(Snap(), remaining), false).errors)
      modifies this`error, this`discardAborted, this`marks
      ensures var all := WalkProps(Scn(), props, |props|, PlaceOf(old(Snap()), remaining), false).errors;
              Valid() && Stopped(o, old(Snap()), Snap(), all) && NoNewRoom(old(Snap()), Snap())
    {
      ghost var s, p, a := Scn(), PlaceOf(Snap(), remaining), Snap();
      ghost var part, all := WalkProps(s, props, k + 1, p, false).errors, WalkProps(s, props, |props|, p, false).errors;
      PropsExtend(s, props, k + 1, |props|, p, false);
      hide WalkProps, FirstHard, Failing, Stopped, Going, Discarded, Silent, Hushed;
      Salvageable(o, a, part, all);
      if hardError && !discardAborted {
        var clear := DiscardProps(props, k + 1, remaining, false);
        Conclude(clear, a, all);
      }
    }

    /** One property that shows a value. */
    method EmitNextProp(props: seq<Prop>, k: nat, remaining: nat, value: Data, first: bool,
                        ghost n: nat) returns (ok: bool)
      requires Ready() && k < |props| && Shown(props[k], false) == Some(value) && (first <==> n == 0)
      requires ShortProps(props, longest)
      requires WalkProps(Scn(), props, k, PlaceOf(Snap(), remaining), false).errors == [] || o.partial
      modifies this`error, this`hardError, this`discardAborted, this`indentLevel, this`marks, this`guards
      modifies buf`len, buf`data, buf.data
      ensures Valid() && (buf.data == old(buf.data) || fresh(buf.data))
      ensures var w := WalkMember(Scn(), props[k].key, value, PlaceOf(old(Snap()), remaining), false);
              Moved(o, old(Snap()), Snap(), ok, w.errors, PieceText(w.tree, n, old(indentLevel), o.style),
                   WalkProps(Scn(), props, |props|, PlaceOf(old(Snap()), remaining), false).errors)
      decreases remaining, Free(heap, guards), 4, 1
    {
      ghost var s0, p := Snap(), PlaceOf(Snap(), remaining);
      ghost var w := WalkMember(Scn(), props[k].key, value, p, false);
      ghost var before, e := WalkProps(Scn(), props, k, p, false).errors, w.errors;
      ghost var piece := PieceText(w.tree, n, s0.indent, o.style);
      PropsStep(Scn(), props, k, p);
      hide Walk, WalkMember, WalkProps, Print, Lead, KeyText, FirstHard, Shown, Going, Failing;
      ok := EmitMember(first, props[k].key, value, remaining, n);
      if !ok {
        FailedSoFar(o, Snap(), before, e);
        StoppedPlace(o, s0, Snap(), e, remaining);
        ghost var s1 := Snap();
        SalvageProps(props, k, remaining);
        StoppedTwice(o, s0, s1, Snap(), e, piece, WalkProps(Scn(), props, |props|, p, false).errors);
      }
    }

    /** The value a property shows, its getter called if it has one. */
    method ReadProp(prop: Prop) returns (value: Option<Data>)
      ensures value == Shown(prop, false)
    {
      if Mangled(prop.key) {
        return None;
      }
      match prop.slot
      case Held(v) => return Some(v);
      case Hooked(returned) => return returned;
      case _ => return None;
    }

    /** One turn over an object's properties; the first that shows opens the body. */
    method EmitPropTurn(props: seq<Prop>, k: nat, remaining: nat, first: bool, bodyOpen: bool, ghost s0: State)
      returns (ok: bool, first': bool, bodyOpen': bool)
      requires Valid() && k < |props| && ShortProps(props, longest)
      requires InBody(Scn(), props, k, s0, Snap(), remaining, first, bodyOpen)
      modifies this`error, this`hardError, this`discardAborted, this`indentLevel, this`marks, this`guards
      modifies buf`len, buf`data, buf.data
      ensures Valid() && (buf.data == old(buf.data) || fresh(buf.data))
      ensures ok ==> InBody(Scn(), props, k + 1, s0, Snap(), remaining, first', bodyOpen')
      ensures !ok ==> LeftBody(Scn(), props, s0, Snap(), remaining, bodyOpen')
      ensures ok ==> guards == old(guards)
      decreases remaining, Free(heap, guards), 5, k
    {
      hide WalkProps, WalkMember, Shown, PieceText, FirstHard, Going, Stopped, InBody, LeftBody;
      first', bodyOpen' := first, bodyOpen;
      BodyHere(Scn(), props, k, s0, Snap(), remaining, first, bodyOpen);
      var value := ReadProp(props[k]);
      if value.None? {
        NothingShown(Scn(), props, k, s0, Snap(), remaining, first, bodyOpen);
        return true, first', bodyOpen';
      }
      ghost var s1 := Snap();
      if o.style.pretty && !bodyOpen {
        indentLevel, bodyOpen' := indentLevel + 1, true;
      }
      BodyOpens(Scn(), props, k, s0, s1, Snap(), remaining, first, bodyOpen, bodyOpen');
      ghost var s2 := Snap();
      ghost var n := |WalkProps(Scn(), props, k, PlaceOf(s2, remaining), false).tree|;
      ok := EmitNextProp(props, k, remaining, value.value, first, n);
      BodyGrows(Scn(), props, k, s0, s1, s2, Snap(), remaining, first, bodyOpen, bodyOpen', value.value, ok);
      first' := false;
      if ok {
        BodyHere(Scn(), props, k + 1, s0, Snap(), remaining, first', bodyOpen');
      }
    }

    /** An object's property view; its body is opened by the first property that shows. */
    method EmitProps(props: seq<Prop>, remaining: nat) returns (ok: bool)
      requires Ready() && ShortProps(props, longest)
      modifies this`error, this`hardError, this`discardAborted, this`indentLevel, this`marks, this`guards
      modifies buf`len, buf`data, buf.data
      ensures Valid() && (buf.data == old(buf.data) || fresh(buf.data))
      ensures var w := WalkProps(Scn(), props, |props|, PlaceOf(old(Snap()), remaining), false);
              Moved(o, old(Snap()), Snap(), ok, w.errors, Print(Obj(w.tree), old(indentLevel), o.style), w.errors)
      decreases remaining, Free(heap, guards), 5, |props|
    {
      ghost var s0 := Snap();
      assert Fine(o, s0);
      hide WalkProps, Print, FirstHard, Going, Stopped, InBody, LeftBody;
      var first, bodyOpen := true, false;
      Put([LEFT_BRACE]);
      BodyStarts(Scn(), props, s0, Snap(), remaining);
      for k := 0 to |props|
        invariant Valid() && (buf.data == old(buf.data) || fresh(buf.data))
        invariant InBody(Scn(), props, k, s0, Snap(), remaining, first, bodyOpen) && guards == old(guards)
      {
        ok, first, bodyOpen := EmitPropTurn(props, k, remaining, first, bodyOpen, s0);
        if !ok {
          ghost var s1 := Snap();
          BodyLeft(Scn(), props, s0, s1, remaining, bodyOpen);
          Unindent(bodyOpen, s0.indent);
          BodyAbandoned(Scn(), props, s0, s1, Snap(), remaining, bodyOpen);
          return;
        }
      }
      ghost var s1 := Snap();
      BodyEnds(Scn(), props, s0, s1, remaining, first, bodyOpen);
      Close(RIGHT_BRACE, bodyOpen, if bodyOpen then 1 else 0, s0.indent);
      BodyClosed(Scn(), props, s0, s1, Snap(), remaining, first, bodyOpen);
      return true;
    }

    method EmitObject(id: nat, remaining: nat) returns (ok: bool)
      requires Ready()
      modifies this`error, this`hardError, this`discardAborted, this`indentLevel, this`marks, this`guards
      modifies buf`len, buf`data, buf.data
      ensures Valid() && (buf.data == old(buf.data) || fresh(buf.data))
      ensures var w := WalkObject(Scn(), id, PlaceOf(old(Snap()), remaining), false);
              Moved(o, old(Snap()), Snap(), ok, w.errors, Print(w.tree, old(indentLevel), o.style), w.errors)
      decreases remaining, Free(heap, guards), 1
    {
      SubstituteText(indentLevel, o.style);
      hide Print, FirstHard, WalkObject, WalkProps, Going, Stopped;
      ghost var s0, p := Snap(), PlaceOf(Snap(), remaining);
      ObjectWalk(Scn(), id, p, false);
      if remaining == 0 {
        ok := PartialOrFail(DepthError, false);
        return;
      }
      if Props(heap, id).None? {
        Put([LEFT_BRACE, RIGHT_BRACE]);
        return true;
      }
      if id in marks {
        ok := PartialOrFail(RecursionError, false);
        return;
      }
      var props := Props(heap, id).value;
      ghost var w := WalkProps(Scn(), props, |props|, Inside(p, id), false);
      ShortInside(heap, id, longest);
      marks := marks + {id};
      ok := EmitProps(props, remaining - 1);
      ghost var s1 := Snap();
      marks := marks - {id};
      MarkCleared(o, s0, s1, id, ok, w.errors, Print(Obj(w.tree), s0.indent, o.style));
    }

    /** An object that says itself what to encode; saying "this" means its properties. */
    method EmitJsonSerializable(id: nat, result: Data, remaining: nat) returns (ok: bool)
      requires Ready() && KindOf(heap, id) == Serializable(result)
      modifies this`error, this`hardError, this`discardAborted, this`indentLevel, this`marks, this`guards
      modifies buf`len, buf`data, buf.data
      ensures Valid() && (buf.data == old(buf.data) || fresh(buf.data))
      ensures var w := Walk(Scn(), Object(id), PlaceOf(old(Snap()), remaining), false);
              Moved(o, old(Snap()), Snap(), ok, w.errors, Print(w.tree, old(indentLevel), o.style), w.errors)
      decreases remaining, Free(heap, guards), 2
    {
      hide Print, FirstHard, WalkObject, Walk, Going, Stopped;
      ghost var s0 := Snap();
      SubstituteText(indentLevel, o.style);
      SerializableWalk(Scn(), id, result, PlaceOf(Snap(), remaining));
      ShortInside(heap, id, longest);
      if id in guards {
        ok := PartialOrFail(RecursionError, false);
        return;
      }
      guards := guards + {id};
      if result == Object(id) {
        guards := guards - {id};
        assert guards == old(guards);
        ok := EmitObject(id, remaining);
        return;
      }
      ghost var w := Walk(Scn(), result, PlaceOf(Snap(), remaining), false);
      assert id in Free(heap, old(guards)) && id !in Free(heap, guards);
      ok := EncodeZval(result, remaining);
      ghost var s1 := Snap();
      guards := guards - {id};
      GuardCleared(o, s0, s1, id, ok, w.errors, Print(w.tree, s0.indent, o.style));
    }
  }

  /**
   * What an encoding owes its caller. Without partial output it succeeds exactly when the traversal meets no
   * error, and otherwise reports the first error other than a non-finite number if there is one; with partial
   * output it succeeds with substitutes and reports the last error. With room for the text and one string
   * more it never fails for a size.
   */
  ghost predicate Outcome(heap: Heap, v: Data, depth: nat, o: Options, tuning: StringWriter.Tuning, maxLen: nat,
                          ok: bool, text: Bytes, error: Error) {
    var w := Walk(Scene(heap, o), v, Place(depth, {}, {}), false);
    && (ok ==> text == Print(w.tree, 0, o.style))
    && if error == TooLarge then
         !ok && |Print(w.tree, 0, o.style)| + (18 * LongestRaw(heap, v) + 6 * tuning.chunk + 29) > maxLen
       else if o.partial then ok && error == if w.errors == [] then NoError else w.errors[|w.errors| - 1]
       else error == Reported(w.errors) && (ok <==> w.errors == [])
  }

  method Encode(heap: Heap, v: Data, depth: nat, o: Options, tuning: StringWriter.Tuning, maxLen: nat)
    returns (ok: bool, text: Bytes, error: Error)
    requires tuning.chunk > 0
    ensures Outcome(heap, v, depth, o, tuning, maxLen, ok, text, error)
  {
    hide FirstHard, IntText, Quoted, WellFormed, Walk, LongestRaw;
    SimpleWalk(Scene(heap, o), v, Place(depth, {}, {}));
    match v {
      case Nil => return true, NULL_TEXT, NoError;
      case Truth(b) => return true, if b then TRUE_TEXT else FALSE_TEXT, NoError;
      case Long(n) => return true, IntText(n), NoError;
      case _ =>
    }
    hide Print;
    var buf := new SmartStr(maxLen);
    LongestRawIsLeast(heap, v, LongestRaw(heap, v));
    var ctx := new Context(heap, o, tuning, buf, LongestRaw(heap, v));
    ok := ctx.EncodeZval(v, depth);
    error, text := ctx.error, [];
    if ok {
      text := buf.data[..buf.len];
    }
  }
}
