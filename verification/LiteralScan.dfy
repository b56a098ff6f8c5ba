/** Whether an input that failed to parse holds a bare Inf or NaN: strings and comments do not count. */
module LiteralScan {
  import opened ByteStrings

  const CARRIAGE_RETURN: Byte := 0x0D
  const ASTERISK: Byte := 0x2A

  // ---------------------------------------------------------------- tokens

  /** The end of a string whose opening quote is behind: past its closing quote, or of the input. */
  function StringEnd(s: Bytes, i: nat): (e: nat)
    requires i <= |s|
    ensures i <= e <= |s|
    decreases |s| - i
  {
    if i == |s| then i
    else if s[i] == BACKSLASH then (if i + 1 == |s| then |s| else StringEnd(s, i + 2))
    else if s[i] == QUOTE then i + 1
    else StringEnd(s, i + 1)
  }

  /** The end of a line comment: its line end, or that of the input. */
  function LineEnd(s: Bytes, i: nat): (e: nat)
    requires i <= |s|
    ensures i <= e <= |s| && (e < |s| ==> s[e] == NEWLINE || s[e] == CARRIAGE_RETURN)
    decreases |s| - i
  {
    if i == |s| || s[i] == NEWLINE || s[i] == CARRIAGE_RETURN then i else LineEnd(s, i + 1)
  }

  /** The end of a block comment: past its closing mark, or of the input. */
  function BlockEnd(s: Bytes, i: nat): (e: nat)
    requires i <= |s|
    ensures i <= e <= |s|
    decreases |s| - i
  {
    if i + 1 >= |s| then |s|
    else if s[i] == ASTERISK && s[i + 1] == SLASH then i + 2
    else BlockEnd(s, i + 1)
  }

  predicate LineComment(s: Bytes, i: nat, comments: bool) {
    comments && At(s, i) == SLASH && At(s, i + 1) == SLASH
  }

  predicate BlockComment(s: Bytes, i: nat, comments: bool) {
    comments && At(s, i) == SLASH && At(s, i + 1) == ASTERISK
  }

  /** Neither the start of a string nor of a comment. */
  predicate Bare(s: Bytes, i: nat, comments: bool) {
    !LineComment(s, i, comments) && !BlockComment(s, i, comments) && At(s, i) != QUOTE
  }

  /** A string, a comment, or a single byte. */
  function TokenEnd(s: Bytes, i: nat, comments: bool): (e: nat)
    requires i < |s|
    ensures i < e <= |s|
  {
    if LineComment(s, i, comments) then LineEnd(s, i + 2)
    else if BlockComment(s, i, comments) then BlockEnd(s, i + 2)
    else if s[i] == QUOTE then StringEnd(s, i + 1)
    else i + 1
  }

  /** `p` is where a token starts, counting tokens from `i`. */
  predicate TokenAt(s: Bytes, i: nat, p: nat, comments: bool)
    requires i <= |s|
    decreases |s| - i
  {
    i == p || (i < |s| && TokenAt(s, TokenEnd(s, i, comments), p, comments))
  }

  predicate Letter(s: Bytes, i: nat, lower: Byte)
    requires 0x61 <= lower <= 0x7A
  {
    At(s, i) == lower || At(s, i) == lower - 0x20
  }

  /** "inf" or "nan" in any case. */
  predicate WordAt(s: Bytes, i: nat) {
    || (Letter(s, i, 0x69) && Letter(s, i + 1, 0x6E) && Letter(s, i + 2, 0x66))
    || (Letter(s, i, 0x6E) && Letter(s, i + 1, 0x61) && Letter(s, i + 2, 0x6E))
  }

  /** From `i` on, one of the words begins outside every string and comment. */
  ghost predicate HasLiteral(s: Bytes, i: nat, comments: bool)
    requires i <= |s|
  {
    exists p: nat :: TokenAt(s, i, p, comments) && Bare(s, p, comments) && WordAt(s, p)
  }

  lemma NextToken(s: Bytes, i: nat, comments: bool)
    requires i < |s|
    ensures HasLiteral(s, i, comments)
       <==> (Bare(s, i, comments) && WordAt(s, i)) || HasLiteral(s, TokenEnd(s, i, comments), comments)
  {
    var e := TokenEnd(s, i, comments);
    if HasLiteral(s, i, comments) {
      var p: nat :| TokenAt(s, i, p, comments) && Bare(s, p, comments) && WordAt(s, p);
      assert p == i || TokenAt(s, e, p, comments);
    }
    if Bare(s, i, comments) && WordAt(s, i) {
      assert TokenAt(s, i, i, comments);
    }
    if HasLiteral(s, e, comments) {
      var p: nat :| TokenAt(s, e, p, comments) && Bare(s, p, comments) && WordAt(s, p);
      assert TokenAt(s, i, p, comments);
    }
  }

  lemma NothingLeft(s: Bytes, comments: bool)
    ensures !HasLiteral(s, |s|, comments)
  {
    forall p: nat | TokenAt(s, |s|, p, comments)
      ensures !WordAt(s, p)
    {
      assert p == |s|;
    }
  }

  // ---------------------------------------------------------------- what the scan sees, byte by byte

  /** "inf" or "nan" stands at `i`, each letter small or capital. */
  predicate Word(s: Bytes, i: nat) {
    && i + 3 <= |s|
    && (|| (s[i] in {0x49, 0x69} && s[i + 1] in {0x4E, 0x6E} && s[i + 2] in {0x46, 0x66})
        || (s[i] in {0x4E, 0x6E} && s[i + 1] in {0x41, 0x61} && s[i + 2] in {0x4E, 0x6E}))
  }

  /** A byte that opens neither a string nor a comment is found or passed over by itself. */
  lemma BareByte(s: Bytes, i: nat, comments: bool)
    requires i < |s| && s[i] != 0x22
    requires !(comments && i + 1 < |s| && s[i] == 0x2F && (s[i + 1] == 0x2F || s[i + 1] == 0x2A))
    ensures HasLiteral(s, i, comments) <==> Word(s, i) || HasLiteral(s, i + 1, comments)
  {
    NextToken(s, i, comments);
    hide HasLiteral;
  }

  /** `s[i..j]` is inside a string: a backslash takes the byte after it along, and no other quote is met. */
  predicate StringBody(s: Bytes, i: nat, j: nat)
    requires j <= |s|
    decreases j - i
  {
    || i == j
    || (i < j && s[i] == 0x5C && StringBody(s, i + 2, j))
    || (i < j && s[i] != 0x5C && s[i] != 0x22 && StringBody(s, i + 1, j))
  }

  lemma {:induction false} StringEndsAt(s: Bytes, i: nat, j: nat)
    requires i <= j <= |s| && StringBody(s, i, j)
    ensures j < |s| && s[j] == 0x22 ==> StringEnd(s, i) == j + 1
    ensures j == |s| ==> StringEnd(s, i) == |s|
    decreases j - i
  {
    if i < j {
      StringEndsAt(s, if s[i] == 0x5C then i + 2 else i + 1, j);
    }
  }

  /** Nothing in a string counts, however its bytes are escaped. */
  lemma StringIsSkipped(s: Bytes, i: nat, j: nat, comments: bool)
    requires i < j < |s| && s[i] == 0x22 && s[j] == 0x22 && StringBody(s, i + 1, j)
    ensures HasLiteral(s, i, comments) <==> HasLiteral(s, j + 1, comments)
  {
    StringEndsAt(s, i + 1, j);
    NextToken(s, i, comments);
    hide HasLiteral, StringEnd;
  }

  /** Nor in one that is never closed, a last lone backslash included. */
  lemma OpenStringHoldsNothing(s: Bytes, i: nat, comments: bool)
    requires i < |s| && s[i] == 0x22
    requires StringBody(s, i + 1, |s|) || (s[|s| - 1] == 0x5C && i + 1 < |s| && StringBody(s, i + 1, |s| - 1))
    ensures !HasLiteral(s, i, comments)
  {
    if StringBody(s, i + 1, |s|) {
      StringEndsAt(s, i + 1, |s|);
    } else {
      LoneBackslash(s, i + 1);
    }
    NextToken(s, i, comments);
    NothingLeft(s, comments);
    hide HasLiteral, StringEnd;
  }

  lemma {:induction false} LoneBackslash(s: Bytes, i: nat)
    requires i < |s| && s[|s| - 1] == 0x5C && StringBody(s, i, |s| - 1)
    ensures StringEnd(s, i) == |s|
    decreases |s| - i
  {
    if i < |s| - 1 {
      LoneBackslash(s, if s[i] == 0x5C then i + 2 else i + 1);
    }
  }

  lemma {:induction false} LineEndsAt(s: Bytes, i: nat, j: nat)
    requires i <= j <= |s| && (forall k :: i <= k < j ==> s[k] != 0x0A && s[k] != 0x0D)
    requires j == |s| || s[j] == 0x0A || s[j] == 0x0D
    ensures LineEnd(s, i) == j
    decreases j - i
  {
    if i < j {
      LineEndsAt(s, i + 1, j);
    }
  }

  /** Where comments are allowed, nothing counts from two slashes to the end of the line or of the input. */
  lemma LineCommentIsSkipped(s: Bytes, i: nat, j: nat)
    requires i + 2 <= j <= |s| && s[i] == 0x2F && s[i + 1] == 0x2F
    requires forall k :: i + 2 <= k < j ==> s[k] != 0x0A && s[k] != 0x0D
    requires j == |s| || s[j] == 0x0A || s[j] == 0x0D
    ensures HasLiteral(s, i, true) <==> HasLiteral(s, j, true)
  {
    LineEndsAt(s, i + 2, j);
    NextToken(s, i, true);
    hide HasLiteral, LineEnd;
  }

  lemma {:induction false} BlockEndsAt(s: Bytes, i: nat, j: nat)
    requires i <= j <= |s|
    requires forall k :: i <= k < j && k + 1 < |s| ==> !(s[k] == 0x2A && s[k + 1] == 0x2F)
    ensures j + 1 < |s| && s[j] == 0x2A && s[j + 1] == 0x2F ==> BlockEnd(s, i) == j + 2
    ensures j == |s| ==> BlockEnd(s, i) == |s|
    decreases j - i
  {
    if i < j {
      BlockEndsAt(s, i + 1, j);
    }
  }

  /** Nor from a slash and an asterisk to the next asterisk and slash, or to the end of the input without them. */
  lemma BlockCommentIsSkipped(s: Bytes, i: nat, j: nat)
    requires i + 2 <= j <= |s| && s[i] == 0x2F && s[i + 1] == 0x2A
    requires forall k :: i + 2 <= k < j && k + 1 < |s| ==> !(s[k] == 0x2A && s[k + 1] == 0x2F)
    ensures j + 1 < |s| && s[j] == 0x2A && s[j + 1] == 0x2F
            ==> (HasLiteral(s, i, true) <==> HasLiteral(s, j + 2, true))
    ensures j == |s| ==> !HasLiteral(s, i, true)
  {
    BlockEndsAt(s, i + 2, j);
    NextToken(s, i, true);
    NothingLeft(s, true);
    hide HasLiteral, BlockEnd;
  }

  // ---------------------------------------------------------------- the scan

  /** To the end of a line comment. */
  method SkipLine(s: Bytes, from: nat) returns (i: nat)
    requires from <= |s|
    ensures i == LineEnd(s, from)
  {
    i := from;
    while i < |s| && s[i] != NEWLINE && s[i] != CARRIAGE_RETURN
      invariant i <= |s| && LineEnd(s, i) == LineEnd(s, from)
    {
      i := i + 1;
    }
  }

  /** To the slash that ends a block comment, or past the end of the input. */
  method SkipBlock(s: Bytes, from: nat) returns (i: nat)
    requires from <= |s|
    ensures i + 1 == BlockEnd(s, from) || (i >= |s| && BlockEnd(s, from) == |s|)
  {
    i := from;
    while i + 1 < |s| && !(s[i] == ASTERISK && s[i + 1] == SLASH)
      invariant i <= |s| && BlockEnd(s, i) == BlockEnd(s, from)
    {
      i := i + 1;
    }
    i := i + 1;
  }

  /** Where the next token starts while the scan is at `i`. */
  ghost function Resumes(s: Bytes, i: nat, inString: bool, escape: bool): (r: nat)
    ensures r <= |s|
  {
    if i >= |s| then |s|
    else if !inString then i
    else if escape then StringEnd(s, i + 1)
    else StringEnd(s, i)
  }

  /** One byte inside a string. */
  lemma InString(s: Bytes, i: nat, escape: bool)
    requires i < |s|
    ensures Resumes(s, i, true, escape)
         == if escape then Resumes(s, i + 1, true, false)
            else if s[i] == BACKSLASH then Resumes(s, i + 1, true, true)
            else if s[i] == QUOTE then Resumes(s, i + 1, false, false)
            else Resumes(s, i + 1, true, false)
  {
  }

  /** One byte outside a string. */
  lemma TokenResumes(s: Bytes, i: nat, comments: bool)
    requires i < |s|
    ensures Resumes(s, i, false, false) == i
    ensures if LineComment(s, i, comments) then TokenEnd(s, i, comments) == LineEnd(s, i + 2)
            else if BlockComment(s, i, comments) then TokenEnd(s, i, comments) == BlockEnd(s, i + 2)
            else TokenEnd(s, i, comments) == Resumes(s, i + 1, s[i] == QUOTE, false)
  {
  }

  /** The end of a line holds no word. */
  lemma LineEnds(s: Bytes, end: nat, comments: bool)
    requires end <= |s| && (end < |s| ==> s[end] == NEWLINE || s[end] == CARRIAGE_RETURN)
    ensures HasLiteral(s, end, comments) <==> HasLiteral(s, Resumes(s, end + 1, false, false), comments)
  {
    hide HasLiteral;
    if end < |s| {
      NextToken(s, end, comments);
    }
  }

  lemma BlockEnds(s: Bytes, i: nat)
    ensures Resumes(s, i + 1, false, false) == if i + 1 >= |s| then |s| else i + 1
  {
  }

  method InputHasInfNanLiteral(s: Bytes, allowComments: bool) returns (found: bool)
    ensures found <==> HasLiteral(s, 0, allowComments)
  {
    var inString, escape := false, false;
    var i := 0;
    NothingLeft(s, allowComments);
    while i < |s|
      invariant escape ==> inString
      invariant HasLiteral(s, 0, allowComments) <==> HasLiteral(s, Resumes(s, i, inString, escape), allowComments)
      decreases |s| - i
    {
      var c := s[i];
      hide HasLiteral, StringEnd, LineEnd, BlockEnd, TokenEnd, WordAt, Resumes;
      if inString {
        InString(s, i, escape);
        if escape {
          escape := false;
        } else if c == BACKSLASH {
          escape := true;
        } else if c == QUOTE {
          inString := false;
        }
        i := i + 1;
        continue;
      }
      NextToken(s, i, allowComments);
      TokenResumes(s, i, allowComments);
      if allowComments && c == SLASH && i + 1 < |s| {
        if s[i + 1] == SLASH {
          var end := SkipLine(s, i + 2);
          LineEnds(s, end, allowComments);
          i := end + 1;
          continue;
        }
        if s[i + 1] == ASTERISK {
          i := SkipBlock(s, i + 2);
          BlockEnds(s, i);
          i := i + 1;
          continue;
        }
      }
      if c == QUOTE {
        inString := true;
        i := i + 1;
        continue;
      }
      if WordAt(s, i) {
        return true;
      }
      i := i + 1;
    }
    return false;
  }
}
