/** The UTF-8 sanitiser shared by the encoder and the decoder. */
module Sanitizer {
  import opened ByteStrings
  import opened Utf8

  datatype Utf8Flags = Utf8Flags(ignore: bool, substitute: bool) {
    predicate Handles() { ignore || substitute }
  }

  const NO_FLAGS := Utf8Flags(false, false)

  datatype Mode = ForDecode | ForEncode

  /** U+FFFD in UTF-8. */
  const REPLACEMENT: Bytes := [0xEF, 0xBF, 0xBD]

  /** With both flags set the decoder substitutes and the encoder drops. */
  predicate Substitutes(flags: Utf8Flags, mode: Mode) {
    if mode.ForDecode? then flags.substitute else flags.substitute && !flags.ignore
  }

  predicate LeadByte(c: Byte) {
    c < 0x80 || 0xC2 <= c <= 0xF4
  }

  /** How far the encoder skips over a byte that begins no valid sequence: a maximal subpart. */
  function BadAdvance(s: Bytes, i: nat): (n: nat)
    requires i < |s|
    ensures 1 <= n <= 4 && i + n <= |s|
    ensures forall k :: i < k < i + n ==> !LeadByte(s[k])
  {
    var c := s[i];
    if c < 0xC2 || c >= 0xF5 then 1
    else if i + 1 >= |s| || LeadByte(s[i + 1]) then 1
    else if c < 0xE0 || i + 2 >= |s| || LeadByte(s[i + 2]) then 2
    else if c < 0xF0 || i + 3 >= |s| || LeadByte(s[i + 3]) then 3
    else 4
  }

  /** How far one step at `i` moves. */
  function Step(s: Bytes, i: nat, maximal: bool): (n: nat)
    requires i < |s|
    ensures 1 <= n && i + n <= |s|
  {
    if ValidAt(s, i) then ValidFits(s, i); SeqLen(s[i]) else if maximal then BadAdvance(s, i) else 1
  }

  /** What one step at `i` writes. */
  function Piece(s: Bytes, i: nat, substitute: bool): Bytes
    requires i < |s|
  {
    if ValidAt(s, i) then ValidFits(s, i); s[i..i + SeqLen(s[i])]
    else if substitute then REPLACEMENT
    else []
  }

  /** The sanitised form of `s[i..]`: valid sequences kept, everything else dropped or replaced. */
  function SanitizeFrom(s: Bytes, i: nat, substitute: bool, maximal: bool): Bytes
    requires i <= |s|
    decreases |s| - i
  {
    if i == |s| then []
    else Piece(s, i, substitute) + SanitizeFrom(s, i + Step(s, i, maximal), substitute, maximal)
  }

  function Sanitize(s: Bytes, substitute: bool, maximal: bool): Bytes {
    SanitizeFrom(s, 0, substitute, maximal)
  }

  function SanitizeFor(s: Bytes, flags: Utf8Flags, mode: Mode): Bytes {
    Sanitize(s, Substitutes(flags, mode), mode.ForEncode?)
  }

  /** One turn of the sanitiser's loop: its own validity test is the grammar's. */
  method Classify(s: Bytes, i: nat) returns (good: bool, adv: nat)
    requires i < |s|
    ensures good == ValidAt(s, i)
    ensures adv == if good then SeqLen(s[i]) else BadAdvance(s, i)
    ensures adv > 0 && i + adv <= |s|
  {
    var c := s[i];
    var avail := |s| - i;
    if c < 0x80 {
      adv, good := 1, true;
    } else if c < 0xC2 {
      adv, good := 1, false;
    } else if c < 0xE0 {
      if avail < 2 || !Tail(s[i + 1]) {
        adv, good := if avail < 2 || LeadByte(s[i + 1]) then 1 else 2, false;
      } else {
        adv, good := 2, Bits2(c, s[i + 1]) >= 0x80;
      }
    } else if c < 0xF0 {
      if avail < 3 || !Tail(s[i + 1]) || !Tail(s[i + 2]) {
        if avail < 2 || LeadByte(s[i + 1]) { adv := 1; }
        else if avail < 3 || LeadByte(s[i + 2]) { adv := 2; }
        else { adv := 3; }
        good := false;
      } else {
        var cp := Bits3(c, s[i + 1], s[i + 2]);
        Bits3Ranges(c, s[i + 1], s[i + 2]);
        if cp < 0x800 { adv, good := 3, false; }
        else if 0xD800 <= cp <= 0xDFFF { adv, good := 3, false; }
        else { adv, good := 3, true; }
      }
    } else if c < 0xF5 {
      if avail < 4 || !Tail(s[i + 1]) || !Tail(s[i + 2]) || !Tail(s[i + 3]) {
        if avail < 2 || LeadByte(s[i + 1]) { adv := 1; }
        else if avail < 3 || LeadByte(s[i + 2]) { adv := 2; }
        else if avail < 4 || LeadByte(s[i + 3]) { adv := 3; }
        else { adv := 4; }
        good := false;
      } else {
        var cp := Bits4(c, s[i + 1], s[i + 2], s[i + 3]);
        Bits4Ranges(c, s[i + 1], s[i + 2], s[i + 3]);
        if cp < 0x10000 || cp > 0x10FFFF { adv, good := 4, false; }
        else { adv, good := 4, true; }
      }
    } else {
      adv, good := 1, false;
    }
  }

  /** One turn of the sanitiser: classify the byte at `i`, write what it becomes, say how far to move. */
  method SanitizeTurn(s: Bytes, i: nat, substitute: bool, mode: Mode, out: array<Byte>, w: nat)
    returns (adv: nat, w': nat)
    requires i < |s|
    requires w + (if substitute then 3 * (|s| - i) else |s| - i) <= out.Length
    modifies out
    ensures adv == Step(s, i, mode.ForEncode?)
    ensures w' == w + |Piece(s, i, substitute)| <= w + if substitute then 3 * adv else adv
    ensures w' <= out.Length && out[..w'] == old(out[..w]) + Piece(s, i, substitute)
  {
    var good;
    good, adv := Classify(s, i);
    if good {
      CopyInto(out, w, s[i..i + adv]);
      w' := w + adv;
    } else {
      if mode.ForDecode? {
        adv := 1;
      }
      w' := w;
      if substitute {
        CopyInto(out, w, REPLACEMENT);
        w' := w + 3;
      }
    }
  }

  /** The sanitiser itself: one pass into a buffer sized once, which it never overruns. */
  method SanitizeUtf8(s: Bytes, flags: Utf8Flags, mode: Mode) returns (out: array<Byte>, outLen: nat)
    ensures outLen <= out.Length
    ensures out[..outLen] == SanitizeFor(s, flags, mode)
    ensures WellFormed(s) <==> out[..outLen] == s
    ensures flags.ignore && flags.substitute
            ==> out[..outLen] == SanitizeFor(s, Utf8Flags(mode.ForEncode?, mode.ForDecode?), mode)
  {
    hide ValidAt, Piece, Step, WellFormed;
    SanitizeFixesExactlyTheIllFormed(s, Substitutes(flags, mode), mode.ForEncode?);
    var substitute := Substitutes(flags, mode);
    if substitute {
      out := new Byte[|s| * 3 + 1](_ => 0);
    } else {
      out := new Byte[if |s| > 0 then |s| else 1](_ => 0);
    }
    var w: nat, i: nat := 0, 0;
    while i < |s|
      invariant i <= |s|
      invariant w <= (if substitute then 3 * i else i) <= out.Length
      invariant out.Length >= if substitute then 3 * |s| else |s|
      invariant out[..w] + SanitizeFrom(s, i, substitute, mode.ForEncode?) == SanitizeFor(s, flags, mode)
    {
      ConcatAssociates(out[..w], Piece(s, i, substitute),
                       SanitizeFrom(s, i + Step(s, i, mode.ForEncode?), substitute, mode.ForEncode?));
      var adv;
      adv, w := SanitizeTurn(s, i, substitute, mode, out, w);
      i := i + adv;
    }
    outLen := w;
  }

  // ---------------------------------------------------------------- one step

  lemma DropStep(s: Bytes, i: nat, maximal: bool)
    requires i < |s| && !ValidAt(s, i)
    ensures SanitizeFrom(s, i, false, maximal)
         == SanitizeFrom(s, i + if maximal then BadAdvance(s, i) else 1, false, maximal)
  {
    hide ValidAt, BadAdvance;
  }

  lemma KeepStep(s: Bytes, i: nat, substitute: bool, maximal: bool)
    requires i < |s| && ValidAt(s, i)
    ensures i + SeqLen(s[i]) <= |s|
    ensures SanitizeFrom(s, i, substitute, maximal)
         == s[i..i + SeqLen(s[i])] + SanitizeFrom(s, i + SeqLen(s[i]), substitute, maximal)
  {
    ValidFits(s, i);
    hide ValidAt;
  }

  lemma EndStep(s: Bytes, substitute: bool, maximal: bool)
    ensures SanitizeFrom(s, |s|, substitute, maximal) == []
  {
  }

  lemma SubstituteStep(s: Bytes, i: nat, maximal: bool)
    requires i < |s| && !ValidAt(s, i)
    ensures SanitizeFrom(s, i, true, maximal)
         == REPLACEMENT + SanitizeFrom(s, i + if maximal then BadAdvance(s, i) else 1, true, maximal)
  {
    hide ValidAt, BadAdvance;
  }

  // ---------------------------------------------------------------- what comes out

  lemma ReplacementIsValid()
    ensures WellFormed(REPLACEMENT)
  {
    assert Encode(0xFFFD) == REPLACEMENT;
    EncodedIsWellFormed([0xFFFD]);
    assert EncodeAll([0xFFFD]) == REPLACEMENT;
  }

  lemma ValidHeadIsWellFormed(s: Bytes)
    requires ValidAt(s, 0)
    ensures SeqLen(s[0]) <= |s| && WellFormed(s[..SeqLen(s[0])])
  {
    ValidFits(s, 0);
    var head := s[..SeqLen(s[0])];
    assert ValidAt(head, 0) && head[SeqLen(head[0])..] == [];
  }

  lemma PieceIsWellFormed(s: Bytes, i: nat, substitute: bool)
    requires i < |s|
    ensures WellFormed(Piece(s, i, substitute))
  {
    if ValidAt(s, i) {
      ValidAtShift(s, i, 0);
      ValidHeadIsWellFormed(s[i..]);
      assert s[i..][..SeqLen(s[i])] == Piece(s, i, substitute);
    } else {
      ReplacementIsValid();
    }
  }

  lemma {:induction false} SanitizedTailIsWellFormed(s: Bytes, i: nat, substitute: bool, maximal: bool)
    requires i <= |s|
    ensures WellFormed(SanitizeFrom(s, i, substitute, maximal))
    decreases |s| - i
  {
    hide ValidAt;
    if i < |s| {
      PieceIsWellFormed(s, i, substitute);
      SanitizedTailIsWellFormed(s, i + Step(s, i, maximal), substitute, maximal);
      WellFormedAppend(Piece(s, i, substitute), SanitizeFrom(s, i + Step(s, i, maximal), substitute, maximal));
    }
  }

  lemma {:induction false} WellFormedTailIsKept(s: Bytes, i: nat, substitute: bool, maximal: bool)
    requires i <= |s| && WellFormed(s[i..])
    ensures SanitizeFrom(s, i, substitute, maximal) == s[i..]
    decreases |s| - i
  {
    hide *;
    if i == |s| {
      EndStep(s, substitute, maximal);
    } else {
      WellFormedStep(s, i);
      KeepStep(s, i, substitute, maximal);
      WellFormedTailIsKept(s, i + SeqLen(s[i]), substitute, maximal);
      assert s[i..] == s[i..i + SeqLen(s[i])] + s[i + SeqLen(s[i])..];
    }
  }

  /** Whatever comes in, well-formed UTF-8 comes out. */
  lemma SanitizedIsWellFormed(s: Bytes, substitute: bool, maximal: bool)
    ensures WellFormed(Sanitize(s, substitute, maximal))
  {
    SanitizedTailIsWellFormed(s, 0, substitute, maximal);
  }

  /** Sanitising changes a string iff it was ill-formed, and a second pass changes nothing. */
  lemma SanitizeFixesExactlyTheIllFormed(s: Bytes, substitute: bool, maximal: bool)
    ensures Sanitize(s, substitute, maximal) == s <==> WellFormed(s)
    ensures Sanitize(Sanitize(s, substitute, maximal), substitute, maximal) == Sanitize(s, substitute, maximal)
  {
    var t := Sanitize(s, substitute, maximal);
    SanitizedIsWellFormed(s, substitute, maximal);
    assert t[0..] == t && s[0..] == s;
    WellFormedTailIsKept(t, 0, substitute, maximal);
    if WellFormed(s) {
      WellFormedTailIsKept(s, 0, substitute, maximal);
    }
  }

  lemma {:induction false} SanitizedTailSize(s: Bytes, i: nat, substitute: bool, maximal: bool)
    requires i <= |s|
    ensures |SanitizeFrom(s, i, substitute, maximal)| <= if substitute then 3 * (|s| - i) else |s| - i
    decreases |s| - i
  {
    hide ValidAt, SanitizeFrom, Piece, SeqLen, BadAdvance;
    if i == |s| {
      EndStep(s, substitute, maximal);
    } else {
      SanitizedTailSize(s, i + Step(s, i, maximal), substitute, maximal);
      if ValidAt(s, i) {
        KeepStep(s, i, substitute, maximal);
      } else if substitute {
        SubstituteStep(s, i, maximal);
      } else {
        DropStep(s, i, maximal);
      }
    }
  }

  /** Dropping never grows the string; substituting at most triples it. */
  lemma SanitizedSize(s: Bytes, substitute: bool, maximal: bool)
    ensures |Sanitize(s, substitute, maximal)| <= if substitute then 3 * |s| else |s|
  {
    SanitizedTailSize(s, 0, substitute, maximal);
  }

  lemma NonLeadIsInvalid(s: Bytes, i: nat)
    requires i < |s| && !LeadByte(s[i])
    ensures !ValidAt(s, i)
  {
  }

  lemma {:induction false} NonLeadsAreDropped(s: Bytes, i: nat, j: nat)
    requires i <= j <= |s| && forall k :: i <= k < j ==> !LeadByte(s[k])
    ensures SanitizeFrom(s, i, false, false) == SanitizeFrom(s, j, false, false)
    decreases j - i
  {
    hide ValidAt, Piece, Step, LeadByte;
    if i < j {
      NonLeadIsInvalid(s, i);
      DropStep(s, i, false);
      NonLeadsAreDropped(s, i + 1, j);
    }
  }

  /** When bad bytes are dropped, the encoder's long steps and the decoder's single steps agree. */
  lemma {:induction false} AdvancePoliciesAgreeWhenDropping(s: Bytes, i: nat)
    requires i <= |s|
    ensures SanitizeFrom(s, i, false, true) == SanitizeFrom(s, i, false, false)
    decreases |s| - i
  {
    hide *;
    if i == |s| {
      EndStep(s, false, true);
      EndStep(s, false, false);
    } else if ValidAt(s, i) {
      KeepStep(s, i, false, true);
      KeepStep(s, i, false, false);
      AdvancePoliciesAgreeWhenDropping(s, i + SeqLen(s[i]));
    } else {
      DropStep(s, i, true);
      DropStep(s, i, false);
      AdvancePoliciesAgreeWhenDropping(s, i + BadAdvance(s, i));
      NonLeadsAreDropped(s, i + 1, i + BadAdvance(s, i));
    }
  }

  /** Under JSON_INVALID_UTF8_IGNORE alone, encode and decode sanitise alike. */
  lemma IgnoreAloneIsModeIndependent(s: Bytes)
    ensures SanitizeFor(s, Utf8Flags(true, false), ForEncode) == SanitizeFor(s, Utf8Flags(true, false), ForDecode)
  {
    AdvancePoliciesAgreeWhenDropping(s, 0);
  }

  // ---------------------------------------------------------------- when substituting agrees

  /** A byte that could begin a sequence but does not is followed at once by another that could, if by any. */
  predicate BrokenAtOnce(s: Bytes) {
    forall p :: 0 <= p < |s| - 1 && 0xC2 <= s[p] <= 0xF4 && !ValidAt(s, p) ==> LeadByte(s[p + 1])
  }

  lemma BadAdvanceAlone(s: Bytes, p: nat)
    requires p < |s|
    ensures BadAdvance(s, p) > 1 <==> p + 1 < |s| && 0xC2 <= s[p] <= 0xF4 && !LeadByte(s[p + 1])
  {
  }

  /** Stepping byte by byte, each byte that begins nothing costs a replacement. */
  lemma {:induction false} NonLeadsAreReplaced(s: Bytes, i: nat, j: nat)
    requires i <= j <= |s| && forall k :: i <= k < j ==> !LeadByte(s[k])
    ensures |SanitizeFrom(s, i, true, false)| == 3 * (j - i) + |SanitizeFrom(s, j, true, false)|
    decreases j - i
  {
    hide ValidAt, Piece, Step, LeadByte, SanitizeFrom;
    if i < j {
      NonLeadIsInvalid(s, i);
      SubstituteStep(s, i, false);
      NonLeadsAreReplaced(s, i + 1, j);
    }
  }

  /** Long steps write a replacement less for every byte they take together. */
  lemma BadStepSizes(s: Bytes, i: nat)
    requires i < |s| && !ValidAt(s, i)
    ensures var n := BadAdvance(s, i);
            && |SanitizeFrom(s, i, true, true)| == 3 + |SanitizeFrom(s, i + n, true, true)|
            && |SanitizeFrom(s, i, true, false)| == 3 * n + |SanitizeFrom(s, i + n, true, false)|
  {
    hide ValidAt, SanitizeFrom;
    SubstituteStep(s, i, true);
    SubstituteStep(s, i, false);
    NonLeadsAreReplaced(s, i + 1, i + BadAdvance(s, i));
  }

  lemma {:induction false} LongStepsWriteLess(s: Bytes, i: nat)
    requires i <= |s|
    ensures |SanitizeFrom(s, i, true, true)| <= |SanitizeFrom(s, i, true, false)|
    decreases |s| - i
  {
    hide *;
    if i == |s| {
      EndStep(s, true, true);
      EndStep(s, true, false);
    } else if ValidAt(s, i) {
      KeepStep(s, i, true, true);
      KeepStep(s, i, true, false);
      LongStepsWriteLess(s, i + SeqLen(s[i]));
    } else {
      BadStepSizes(s, i);
      LongStepsWriteLess(s, i + BadAdvance(s, i));
    }
  }

  /** No step passes over a byte that could begin a sequence. */
  lemma StepsMeetLeads(s: Bytes, i: nat, p: nat)
    requires i < p < |s| && LeadByte(s[p])
    ensures ValidAt(s, i) ==> i + SeqLen(s[i]) <= p
    ensures !ValidAt(s, i) ==> i + BadAdvance(s, i) <= p
  {
    if ValidAt(s, i) {
      ValidFits(s, i);
    }
  }

  /** Where a long step takes more than one byte, fewer are written from there and from anywhere before it. */
  lemma {:induction false} LongStepShows(s: Bytes, i: nat, p: nat)
    requires i <= p < |s| && !ValidAt(s, p) && LeadByte(s[p]) && BadAdvance(s, p) > 1
    ensures |SanitizeFrom(s, i, true, true)| < |SanitizeFrom(s, i, true, false)|
    decreases p - i
  {
    hide ValidAt, BadAdvance, SanitizeFrom, LeadByte;
    if i == p {
      BadStepSizes(s, i);
      LongStepsWriteLess(s, i + BadAdvance(s, i));
    } else {
      StepsMeetLeads(s, i, p);
      if ValidAt(s, i) {
        KeepStep(s, i, true, true);
        KeepStep(s, i, true, false);
        LongStepShows(s, i + SeqLen(s[i]), p);
      } else {
        BadStepSizes(s, i);
        LongStepShows(s, i + BadAdvance(s, i), p);
      }
    }
  }

  lemma {:induction false} ShortStepsAgree(s: Bytes, i: nat)
    requires i <= |s| && BrokenAtOnce(s)
    ensures SanitizeFrom(s, i, true, true) == SanitizeFrom(s, i, true, false)
    decreases |s| - i
  {
    hide *;
    if i == |s| {
      EndStep(s, true, true);
      EndStep(s, true, false);
    } else if ValidAt(s, i) {
      KeepStep(s, i, true, true);
      KeepStep(s, i, true, false);
      ShortStepsAgree(s, i + SeqLen(s[i]));
    } else {
      BrokenStepIsShort(s, i);
      SubstituteStep(s, i, true);
      SubstituteStep(s, i, false);
      ShortStepsAgree(s, i + 1);
    }
  }

  lemma BrokenStepIsShort(s: Bytes, i: nat)
    requires i < |s| && BrokenAtOnce(s) && !ValidAt(s, i)
    ensures BadAdvance(s, i) == 1
  {
    BadAdvanceAlone(s, i);
    hide ValidAt, LeadByte;
  }

  /** Under JSON_INVALID_UTF8_SUBSTITUTE alone, encode and decode sanitise such input alike, and no other. */
  lemma SubstituteAloneAgreesIff(s: Bytes)
    ensures SanitizeFor(s, Utf8Flags(false, true), ForEncode) == SanitizeFor(s, Utf8Flags(false, true), ForDecode)
       <==> BrokenAtOnce(s)
  {
    if BrokenAtOnce(s) {
      ShortStepsAgree(s, 0);
    } else {
      var p :| 0 <= p < |s| - 1 && 0xC2 <= s[p] <= 0xF4 && !ValidAt(s, p) && !LeadByte(s[p + 1]);
      BadAdvanceAlone(s, p);
      LongStepShows(s, 0, p);
    }
  }

  /** Substituting writes more than dropping does, unless there is nothing to sanitise. */
  lemma {:induction false} DroppingWritesLess(s: Bytes, i: nat, maximal: bool)
    requires i <= |s|
    ensures |SanitizeFrom(s, i, false, maximal)| <= |SanitizeFrom(s, i, true, maximal)|
    ensures !WellFormed(s[i..]) ==> |SanitizeFrom(s, i, false, maximal)| < |SanitizeFrom(s, i, true, maximal)|
    decreases |s| - i
  {
    hide ValidAt, WellFormed, SanitizeFrom, Piece, Step, SeqLen, BadAdvance;
    if i == |s| {
      EndStep(s, false, maximal);
      assert s[i..] == [];
      EmptyIsWellFormed();
    } else {
      if ValidAt(s, i) {
        KeepStep(s, i, false, maximal);
        KeepStep(s, i, true, maximal);
        WellFormedStep(s, i);
        DroppingWritesLess(s, i + SeqLen(s[i]), maximal);
      } else {
        DropStep(s, i, maximal);
        SubstituteStep(s, i, maximal);
        DroppingWritesLess(s, i + if maximal then BadAdvance(s, i) else 1, maximal);
      }
    }
  }

  /** With both flags set the encoder drops what the decoder replaces: they agree on well-formed input only. */
  lemma BothFlagsAgreeIff(s: Bytes)
    ensures SanitizeFor(s, Utf8Flags(true, true), ForEncode) == SanitizeFor(s, Utf8Flags(true, true), ForDecode)
       <==> WellFormed(s)
  {
    hide WellFormed;
    assert s[0..] == s;
    if WellFormed(s) {
      SanitizeFixesExactlyTheIllFormed(s, false, true);
      SanitizeFixesExactlyTheIllFormed(s, true, false);
    } else {
      AdvancePoliciesAgreeWhenDropping(s, 0);
      DroppingWritesLess(s, 0, false);
    }
  }

  // ---------------------------------------------------------------- what becomes of a broken sequence

  /** How many bytes a lead byte announces; 1 for a byte that announces nothing. */
  function Announced(c: Byte): nat {
    if 0xC2 <= c <= 0xDF then 2 else if 0xE0 <= c <= 0xEF then 3 else if 0xF0 <= c <= 0xF4 then 4 else 1
  }

  /**
   * The encoder's long step takes the bytes announced, but stops at the end of the text and before a byte that could
   * begin a sequence itself.
   */
  lemma BadAdvanceIsMaximal(s: Bytes, i: nat)
    requires i < |s|
    ensures var n := BadAdvance(s, i);
            && 1 <= n <= Announced(s[i])
            && (forall k :: i < k < i + n ==> 0x80 <= s[k] <= 0xC1 || 0xF5 <= s[k])
            && (n == Announced(s[i]) || i + n == |s| || s[i + n] <= 0x7F || 0xC2 <= s[i + n] <= 0xF4)
  {
  }

  lemma StepShift(s: Bytes, i: nat, j: nat, substitute: bool, maximal: bool)
    requires i + j < |s|
    ensures Step(s, i + j, maximal) == Step(s[i..], j, maximal)
    ensures Piece(s, i + j, substitute) == Piece(s[i..], j, substitute)
  {
    var t := s[i..];
    assert forall k :: 0 <= k < |t| ==> t[k] == s[i + k];
    if ValidAt(s, i + j) {
      ValidFits(s, i + j);
      assert ValidAt(t, j);
      assert s[i + j..i + j + SeqLen(s[i + j])] == t[j..j + SeqLen(t[j])];
    }
  }

  lemma {:induction false} TailAlone(s: Bytes, i: nat, j: nat, substitute: bool, maximal: bool)
    requires i + j <= |s|
    ensures SanitizeFrom(s, i + j, substitute, maximal) == SanitizeFrom(s[i..], j, substitute, maximal)
    decreases |s| - i - j
  {
    hide ValidAt, Step, Piece;
    if i + j < |s| {
      StepShift(s, i, j, substitute, maximal);
      TailAlone(s, i, j + Step(s[i..], j, maximal), substitute, maximal);
    }
  }

  lemma {:induction false} FrontIsKept(a: Bytes, b: Bytes, i: nat, substitute: bool, maximal: bool)
    requires i <= |a| && WellFormed(a[i..])
    ensures SanitizeFrom(a + b, i, substitute, maximal) == a[i..] + SanitizeFrom(a + b, |a|, substitute, maximal)
    decreases |a| - i
  {
    hide *;
    if i == |a| {
      assert a[i..] == [];
    } else {
      WellFormedStep(a, i);
      var n := SeqLen(a[i]);
      ValidAtExtends(a, b, i);
      KeepStep(a + b, i, substitute, maximal);
      FrontIsKept(a, b, i + n, substitute, maximal);
      assert (a + b)[i..i + n] + (a[i + n..] + SanitizeFrom(a + b, |a|, substitute, maximal))
          == a[i..] + SanitizeFrom(a + b, |a|, substitute, maximal);
    }
  }

  lemma ValidAtExtends(a: Bytes, b: Bytes, i: nat)
    requires ValidAt(a, i)
    ensures ValidAt(a + b, i) && (a + b)[i] == a[i]
  {
  }

  /** Text before the first broken sequence is kept, and what follows is sanitised by itself. */
  lemma FrontThenRest(a: Bytes, b: Bytes, substitute: bool, maximal: bool)
    requires WellFormed(a)
    ensures Sanitize(a + b, substitute, maximal) == a + Sanitize(b, substitute, maximal)
  {
    hide WellFormed, SanitizeFrom;
    assert a[0..] == a && (a + b)[|a|..] == b;
    FrontIsKept(a, b, 0, substitute, maximal);
    TailAlone(a + b, |a|, 0, substitute, maximal);
  }

  /**
   * The first broken sequence, at `b`, of a text whose beginning `a` is well-formed. The decoder takes one byte of
   * it, the encoder a long step. Under JSON_INVALID_UTF8_IGNORE alone nothing is written for it, under
   * JSON_INVALID_UTF8_SUBSTITUTE alone the three bytes of U+FFFD, and under both nothing by the encoder and U+FFFD
   * by the decoder.
   */
  lemma BrokenSequence(a: Bytes, b: Bytes, flags: Utf8Flags)
    requires WellFormed(a) && b != [] && !ValidAt(b, 0)
    ensures SanitizeFor(a + b, flags, ForDecode)
         == a + (if flags.substitute then [0xEF, 0xBF, 0xBD] else []) + SanitizeFor(b[1..], flags, ForDecode)
    ensures SanitizeFor(a + b, flags, ForEncode)
         == a + (if flags.substitute && !flags.ignore then [0xEF, 0xBF, 0xBD] else [])
              + SanitizeFor(b[BadAdvance(b, 0)..], flags, ForEncode)
  {
    var n := BadAdvance(b, 0);
    FirstStep(a, b, flags, ForDecode, 1);
    FirstStep(a, b, flags, ForEncode, n);
  }

  lemma FirstStep(a: Bytes, b: Bytes, flags: Utf8Flags, mode: Mode, n: nat)
    requires WellFormed(a) && b != [] && !ValidAt(b, 0)
    requires n == if mode.ForEncode? then BadAdvance(b, 0) else 1
    ensures SanitizeFor(a + b, flags, mode)
         == a + (if Substitutes(flags, mode) then REPLACEMENT else []) + SanitizeFor(b[n..], flags, mode)
  {
    hide WellFormed, ValidAt, SanitizeFrom, BadAdvance;
    var substitute, maximal := Substitutes(flags, mode), mode.ForEncode?;
    FrontThenRest(a, b, substitute, maximal);
    if substitute {
      SubstituteStep(b, 0, maximal);
    } else {
      DropStep(b, 0, maximal);
    }
    TailAlone(b, n, 0, substitute, maximal);
    assert a + ((if substitute then REPLACEMENT else []) + SanitizeFrom(b, n, substitute, maximal))
        == a + (if substitute then REPLACEMENT else []) + SanitizeFrom(b, n, substitute, maximal);
  }

  /** With both flags set the decoder substitutes as under SUBSTITUTE, and the encoder drops as under IGNORE. */
  lemma SidesUnderBothFlags(s: Bytes)
    ensures SanitizeFor(s, Utf8Flags(true, true), ForDecode) == SanitizeFor(s, Utf8Flags(false, true), ForDecode)
    ensures SanitizeFor(s, Utf8Flags(true, true), ForEncode) == SanitizeFor(s, Utf8Flags(true, false), ForEncode)
    ensures !WellFormed(s)
            ==> SanitizeFor(s, Utf8Flags(true, true), ForDecode) != SanitizeFor(s, Utf8Flags(true, false), ForDecode)
    ensures !WellFormed(s)
            ==> SanitizeFor(s, Utf8Flags(true, true), ForEncode) != SanitizeFor(s, Utf8Flags(false, true), ForEncode)
  {
    assert s[0..] == s;
    hide WellFormed, SanitizeFrom;
    if !WellFormed(s) {
      DroppingWritesLess(s, 0, false);
      DroppingWritesLess(s, 0, true);
    }
  }

  /** A truncated three-byte sequence becomes one U+FFFD for the encoder and two for the decoder. */
  lemma SubstitutionDependsOnMode()
    ensures |SanitizeFor([0xE2, 0x82], Utf8Flags(false, true), ForEncode)| == 3
    ensures |SanitizeFor([0xE2, 0x82], Utf8Flags(false, true), ForDecode)| == 6
    ensures !BrokenAtOnce([0xE2, 0x82])
  {
    var s: Bytes := [0xE2, 0x82];
    assert !ValidAt(s, 0) && !ValidAt(s, 1) && BadAdvance(s, 0) == 2;
    assert SanitizeFrom(s, 2, true, true) == [] && SanitizeFrom(s, 2, true, false) == [];
    assert SanitizeFrom(s, 1, true, false) == REPLACEMENT;
  }
}
