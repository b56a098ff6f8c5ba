/** How printed documents are laid out, in literal bytes: separators, line ends and four spaces a level. */
module Layout {
  import opened ByteStrings
  import opened Escape
  import opened Json

  /** The pieces one after the other, `sep` between any two. */
  function Joined(pieces: seq<Bytes>, sep: Bytes): Bytes {
    if pieces == [] then []
    else if |pieces| == 1 then pieces[0]
    else Joined(pieces[..|pieces| - 1], sep) + sep + pieces[|pieces| - 1]
  }

  /** A line end and `4 * level` spaces. */
  function LineAt(level: nat): Bytes {
    [0x0A] + seq(4 * level, _ => 0x20)
  }

  function ItemTexts(items: seq<Value>, level: nat, st: Style): (r: seq<Bytes>)
    ensures |r| == |items| && forall k :: 0 <= k < |items| ==> r[k] == Print(items[k], level, st)
  {
    seq(|items|, k requires 0 <= k < |items| => Print(items[k], level, st))
  }

  /** A member: its key in quotes, a colon, a space when pretty, its value. */
  function MemberTexts(members: seq<Entry<Value>>, level: nat, st: Style): (r: seq<Bytes>)
    ensures |r| == |members|
    ensures forall k :: 0 <= k < |members| ==>
      r[k] == Quoted(members[k].key, st.write, st.hex) + (if st.pretty then [0x3A, 0x20] else [0x3A])
              + Print(members[k].value, level, st)
  {
    seq(|members|, k requires 0 <= k < |members| =>
          Quoted(members[k].key, st.write, st.hex) + (if st.pretty then [0x3A, 0x20] else [0x3A])
          + Print(members[k].value, level, st))
  }

  /** A container whose pieces are given, between its brackets. */
  function Laid(open: Byte, pieces: seq<Bytes>, close: Byte, level: nat, pretty: bool): Bytes {
    if pieces == [] then [open, close]
    else if pretty then
      [open] + LineAt(level + 1) + Joined(pieces, [0x2C] + LineAt(level + 1)) + LineAt(level) + [close]
    else [open] + Joined(pieces, [0x2C]) + [close]
  }

  function Line(level: nat, st: Style): Bytes {
    if st.pretty then LineAt(level) else []
  }

  lemma LeadIs(n: nat, level: nat, st: Style)
    ensures Lead(n, level, st) == (if n == 0 then [] else [0x2C]) + Line(level, st)
    ensures Trail(n, level, st) == if n == 0 then [] else Line(level, st)
  {
  }

  lemma JoinedGrows(pieces: seq<Bytes>, sep: Bytes, n: nat)
    requires 0 < n < |pieces|
    ensures Joined(pieces[..n + 1], sep) == Joined(pieces[..n], sep) + sep + pieces[n]
  {
    assert pieces[..n + 1][..n] == pieces[..n] && pieces[..n + 1][n] == pieces[n];
  }

  lemma Regroup(line: Bytes, a: Bytes, sep: Bytes, piece: Bytes)
    ensures line + a + sep + piece == line + (a + sep + piece)
  {
  }

  lemma {:induction false} ItemsLaid(items: seq<Value>, n: nat, level: nat, st: Style)
    requires 0 < n <= |items|
    ensures PrintItems(items, n, level, st)
         == Line(level, st) + Joined(ItemTexts(items, level, st)[..n], [0x2C] + Line(level, st))
  {
    hide Print, Line, Lead;
    var texts, line := ItemTexts(items, level, st), Line(level, st);
    LeadIs(n - 1, level, st);
    if n == 1 {
      assert texts[..1] == [texts[0]] && PrintItems(items, 0, level, st) == [];
      assert [] + ([] + line) + texts[0] == line + texts[0];
    } else {
      ItemsLaid(items, n - 1, level, st);
      JoinedGrows(texts, [0x2C] + line, n - 1);
      hide Joined, ItemTexts;
      Regroup(line, Joined(texts[..n - 1], [0x2C] + line), [0x2C] + line, texts[n - 1]);
    }
  }

  lemma MembersPiece(members: seq<Entry<Value>>, n: nat, level: nat, st: Style)
    requires 0 < n <= |members|
    ensures PrintMembers(members, n, level, st)
         == PrintMembers(members, n - 1, level, st) + Lead(n - 1, level, st) + MemberTexts(members, level, st)[n - 1]
  {
    var m := members[n - 1];
    MemberTextIs(m, level, st);
    var before, key, text := PrintMembers(members, n - 1, level, st), KeyText(m.key, st), Print(m.value, level, st);
    assert MemberTexts(members, level, st)[n - 1] == key + text;
    assert PrintMembers(members, n, level, st) == before + Lead(n - 1, level, st) + key + text;
    hide *;
    ConcatAssociates(before + Lead(n - 1, level, st), key, text);
  }

  lemma FirstLaid(printed: Bytes, lead: Bytes, line: Bytes, texts: seq<Bytes>)
    requires texts != [] && lead == [] + line && printed == [] + lead + texts[0]
    ensures printed == line + Joined(texts[..1], [0x2C] + line)
  {
    assert texts[..1] == [texts[0]] && [] + line == line;
  }

  lemma {:induction false} MembersLaid(members: seq<Entry<Value>>, n: nat, level: nat, st: Style)
    requires 0 < n <= |members|
    ensures PrintMembers(members, n, level, st)
         == Line(level, st) + Joined(MemberTexts(members, level, st)[..n], [0x2C] + Line(level, st))
  {
    hide *;
    var texts, line := MemberTexts(members, level, st), Line(level, st);
    MembersPiece(members, n, level, st);
    LeadIs(n - 1, level, st);
    if n == 1 {
      NoMembers(members, level, st);
      FirstLaid(PrintMembers(members, 1, level, st), Lead(0, level, st), line, texts);
    } else {
      MembersLaid(members, n - 1, level, st);
      JoinedGrows(texts, [0x2C] + line, n - 1);
      Regroup(line, Joined(texts[..n - 1], [0x2C] + line), [0x2C] + line, texts[n - 1]);
    }
  }

  lemma NoMembers(members: seq<Entry<Value>>, level: nat, st: Style)
    ensures PrintMembers(members, 0, level, st) == []
  {
  }

  lemma MemberTextIs(m: Entry<Value>, level: nat, st: Style)
    ensures Quoted(m.key, st.write, st.hex) + (if st.pretty then [0x3A, 0x20] else [0x3A]) + Print(m.value, level, st)
         == KeyText(m.key, st) + Print(m.value, level, st)
  {
    hide Print, Quoted;
    assert [0x3A, 0x20] == [COLON] + [SPACE];
    assert Quoted(m.key, st.write, st.hex) + ([COLON] + [SPACE]) == Quoted(m.key, st.write, st.hex) + [COLON] + [SPACE];
  }

  /** An array: its elements' texts between `[` and `]`, apart by `,`; when pretty, each on a line of its own. */
  lemma ArrayLayout(items: seq<Value>, level: nat, st: Style)
    ensures var inner := if st.pretty then level + 1 else level;
            Print(Arr(items), level, st) == Laid(0x5B, ItemTexts(items, inner, st), 0x5D, level, st.pretty)
  {
    var inner := if st.pretty then level + 1 else level;
    var texts := ItemTexts(items, inner, st);
    assert LEFT_BRACKET == 0x5B && RIGHT_BRACKET == 0x5D;
    hide Print, PrintItems, ItemTexts, Joined;
    ArrayText([], items, level, st);
    LeadIs(|items|, level, st);
    if items != [] {
      ItemsLaid(items, |items|, inner, st);
      assert texts[..|items|] == texts;
    } else {
      Nothing(level, st);
    }
    hide Lead, Trail, LineAt;
    Close(Print(Arr(items), level, st), 0x5B, PrintItems(items, |items|, inner, st), Trail(|items|, level, st), 0x5D);
    Lay(0x5B, texts, 0x5D, level, st);
  }

  /** An object, likewise. */
  lemma ObjectLayout(members: seq<Entry<Value>>, level: nat, st: Style)
    ensures var inner := if st.pretty then level + 1 else level;
            Print(Obj(members), level, st) == Laid(0x7B, MemberTexts(members, inner, st), 0x7D, level, st.pretty)
  {
    var inner := if st.pretty then level + 1 else level;
    var texts := MemberTexts(members, inner, st);
    assert LEFT_BRACE == 0x7B && RIGHT_BRACE == 0x7D;
    hide Print, PrintMembers, MemberTexts, Joined, Quoted;
    ObjectText([], members, level, st);
    LeadIs(|members|, level, st);
    if members != [] {
      MembersLaid(members, |members|, inner, st);
      assert texts[..|members|] == texts;
    } else {
      Nothing(level, st);
    }
    hide Lead, Trail, LineAt;
    Close(Print(Obj(members), level, st), 0x7B, PrintMembers(members, |members|, inner, st),
          Trail(|members|, level, st), 0x7D);
    Lay(0x7B, texts, 0x7D, level, st);
  }

  lemma Nothing(level: nat, st: Style)
    ensures PrintItems([], 0, level, st) == [] && PrintItems([], 0, level + 1, st) == []
    ensures PrintMembers([], 0, level, st) == [] && PrintMembers([], 0, level + 1, st) == []
  {
  }

  lemma Close(text: Bytes, open: Byte, body: Bytes, trail: Bytes, close: Byte)
    requires [] + [open] + body + (trail + [close]) == [] + text
    ensures text == [open] + body + trail + [close]
  {
    assert [] + text == text;
  }

  lemma Lay(open: Byte, texts: seq<Bytes>, close: Byte, level: nat, st: Style)
    ensures var inner := if st.pretty then level + 1 else level;
            var body := if texts == [] then [] else Line(inner, st) + Joined(texts, [0x2C] + Line(inner, st));
            var trail := if texts == [] then [] else Line(level, st);
            [open] + body + trail + [close] == Laid(open, texts, close, level, st.pretty)
  {
    hide Joined, LineAt;
    if texts != [] {
      if st.pretty {
        var line, joined := LineAt(level + 1), Joined(texts, [0x2C] + LineAt(level + 1));
        assert [open] + (line + joined) == [open] + line + joined;
      } else {
        assert [0x2C] + [] == [0x2C];
        assert [open] + ([] + Joined(texts, [0x2C])) + [] == [open] + Joined(texts, [0x2C]);
      }
    }
  }
}
