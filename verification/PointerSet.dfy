/** Setting a PHP value in a document: encode it within the depth the pointer leaves, then splice it in. */
module PointerSet {
  import opened ByteStrings
  import opened EncodeFits
  import opened Json
  import opened PhpHeap
  import opened PointerText
  import opened PointerTree
  import opened Sanitizer
  import opened Splice
  import opened Utf8
  import opened Wrappers
  import Edits
  import EncodeMeaning
  import Encoder
  import Encoding
  import Reading
  import StringWriter

  // ---------------------------------------------------------------- the replacement

  /** A scalar that every flag in force encodes alike is spliced as a value, not as text. */
  function DirectValue(v: Data, o: Encoding.Options): Option<Value> {
    if o.forceObject || o.numericCheck || o.partial || o.preserveZero then None
    else match v
      case Nil => Some(Null)
      case Truth(b) => Some(Bool(b))
      case Long(n) => Some(Num(IntText(n), true))
      case Text(s, _) => Some(Str(if o.utf8.Handles() && !WellFormed(s) then SanitizeFor(s, o.utf8, ForEncode) else s))
      case _ => None
  }

  function Encoded(s: Encoding.Scene, v: Data, depth: nat): Encoding.Walked<Value> {
    Encoding.Walk(s, v, Encoding.Place(depth, {}, {}), false)
  }

  /** The value that is set. */
  function NewValue(s: Encoding.Scene, v: Data, depth: nat): Value {
    if DirectValue(v, s.o).Some? then DirectValue(v, s.o).value else Encoded(s, v, depth).tree
  }

  /** The shortcut is no different: what it splices is what the encoder would print, wherever that succeeds. */
  lemma DirectIsEncoded(s: Encoding.Scene, v: Data, depth: nat)
    requires DirectValue(v, s.o).Some?
    ensures Encodable(DirectValue(v, s.o).value) <==> Encoded(s, v, depth).errors == []
    ensures Encoded(s, v, depth).errors == [] ==> Encoded(s, v, depth).tree == DirectValue(v, s.o).value
  {
    if v.Text? {
      SanitizedIsWellFormed(v.s, Substitutes(s.o.utf8, ForEncode), true);
    }
    hide WellFormed, Sanitize, IntText;
  }

  /** `nv` is the document that encoding `v` stands for, its numbers spelled by the grammar if those of the heap are. */
  ghost predicate IsDocumentOf(s: Encoding.Scene, v: Data, nv: Value) {
    && EncodeMeaning.Unfolds(s, v, nv)
    && (EncodeMeaning.SpelledHeap(s.heap) && EncodeMeaning.SpelledData(v) ==> Reading.Grammatical(nv))
  }

  /** What is set stands for the PHP value, whichever way it took. */
  lemma NewValueIsDocument(s: Encoding.Scene, v: Data, depth: nat)
    requires DirectValue(v, s.o).Some? ==> Encodable(NewValue(s, v, depth))
    requires DirectValue(v, s.o).None? ==> Encoded(s, v, depth).errors == []
    ensures IsDocumentOf(s, v, NewValue(s, v, depth))
  {
    if DirectValue(v, s.o).Some? {
      DirectIsEncoded(s, v, depth);
    }
    hide DirectValue, Encodable, Reading.Grammatical, EncodeMeaning.Unfolds, EncodeMeaning.SpelledHeap,
         EncodeMeaning.SpelledData, Encoding.Walk;
    EncodeMeaning.WalkUnfolds(s, v, Encoding.Place(depth, {}, {}));
    EncodeMeaning.UnfoldsReadable(s, v, NewValue(s, v, depth),
                                  EncodeMeaning.SpelledHeap(s.heap) && EncodeMeaning.SpelledData(v));
  }

  method BuildReplacement(heap: Heap, v: Data, depth: nat, o: Encoding.Options, tuning: StringWriter.Tuning,
                          maxLen: nat)
    returns (ok: bool, replacement: Replacement, error: Encoding.Error)
    requires tuning.chunk > 0 && PlainLexemes(heap) && PlainNumber(v)
    ensures DirectValue(v, o).Some? ==> ok && replacement == Tree(DirectValue(v, o).value)
    ensures DirectValue(v, o).None? ==>
              var w := Encoded(Encoding.Scene(heap, o), v, depth);
              && (error == Encoding.TooLarge ==>
                    !ok && |Print(w.tree, 0, o.style)| + Encoder.Reserve(LongestRaw(heap, v), tuning) > maxLen)
              && (error != Encoding.TooLarge && !o.partial ==>
                  error == Encoding.Reported(w.errors) && (ok <==> w.errors == []))
              && (error != Encoding.TooLarge && o.partial ==> ok)
              && (ok ==> replacement == Replacement.Encoded(Print(w.tree, 0, o.style)))
              && Sound(w.tree, depth)
  {
    hide WellFormed, Sanitize, IntText, Print, Sound, LongestRaw, Encoding.Walk, Encoding.FirstHard;
    error := Encoding.NoError;
    if !(o.forceObject || o.numericCheck || o.partial || o.preserveZero) {
      match v {
        case Nil => return true, Tree(Null), error;
        case Truth(b) => return true, Tree(Bool(b)), error;
        case Long(n) => return true, Tree(Num(IntText(n), true)), error;
        case Text(s, _) =>
          var valid := Utf8WellFormed(s);
          if o.utf8.Handles() && !valid {
            var out, n := SanitizeUtf8(s, o.utf8, ForEncode);
            return true, Tree(Str(out[..n])), error;
          }
          return true, Tree(Str(s)), error;
        case _ =>
      }
    }
    WalkIsSound(Encoding.Scene(heap, o), v, Encoding.Place(depth, {}, {}), false);
    var text;
    ok, text, error := Encoder.Encode(heap, v, depth, o, tuning, maxLen);
    replacement := Replacement.Encoded(text);
  }

  // ---------------------------------------------------------------- the whole operation

  /**
   * Past the preflight a write never fails for want of a settable or unambiguous location. It yields the
   * text of the document with the new value in it, which nests less deep than `depth`, or reports what
   * keeps the value from being encoded or the edited document from having a text.
   */
  method Set(root: Value, pointer: Bytes, heap: Heap, v: Data, o: Encoding.Options, tuning: StringWriter.Tuning,
             depth: nat, maxSegments: nat, sizeMax: nat, maxLen: nat)
    returns (out: Option<Bytes>, built: bool, status: SpliceStatus, error: Encoding.Error)
    requires tuning.chunk > 0 && depth > 0 && PlainLexemes(heap) && PlainNumber(v)
    ensures out.Some? <==> built && status == Ok
    ensures PreflightStatus(root, pointer, depth, maxSegments, sizeMax) != Ok ==>
              !built && status == PreflightStatus(root, pointer, depth, maxSegments, sizeMax)
    ensures PreflightStatus(root, pointer, depth, maxSegments, sizeMax) == Ok ==>
      && Parse(pointer).Some?
      && var segs := Parse(pointer).value;
      var nv := NewValue(Encoding.Scene(heap, o), v, ReplacementBudget(depth, |segs|));
      && SetAt(root, segs, 0, nv, sizeMax).Done?
      && var edited := SetAt(root, segs, 0, nv, sizeMax).v;
      && (!built ==>
            var w := Encoded(Encoding.Scene(heap, o), v, ReplacementBudget(depth, |segs|));
            if error == Encoding.TooLarge
            then |Print(w.tree, 0, o.style)| + Encoder.Reserve(LongestRaw(heap, v), tuning) > maxLen
            else !o.partial && w.errors != [] && error == Encoding.Reported(w.errors))
      && (built ==>
            if status == TooLarge
            then |Print(edited, 0, o.style)| + Spare(LongestText(edited), tuning) > maxLen
            else status == StatusOf(FirstFault(edited, depth)))
      && (out.Some? ==>
            && out.value == Print(edited, 0, o.style)
            && IsEditText(out.value, edited, root, segs, nv, depth, sizeMax)
            && (!o.partial ==> IsDocumentOf(Encoding.Scene(heap, o), v, nv)))
  {
    hide Parse, Walk, SetAt, Print, FirstFault, PlainNumbers, Encodable, Depth, Encoding.Walk, PlainLexemes,
         DirectValue, LongestText, LongestRaw, IsDocumentOf, IsEditText, Encoding.FirstHard;
    var plan;
    error := Encoding.NoError;
    status, plan := PlanInit(root, pointer, depth, maxSegments, sizeMax);
    if status != Ok {
      return None, false, status, error;
    }
    ghost var nv := NewValue(Encoding.Scene(heap, o), v, ReplacementBudget(depth, |plan|));
    PreflightIsExact(root, plan, 0, nv, sizeMax);
    FaultFree(nv, depth - |plan|);
    var replacement;
    built, replacement, error := BuildReplacement(heap, v, ReplacementBudget(depth, |plan|), o, tuning, maxLen);
    if !built {
      return None, false, status, error;
    }
    out, status := PointerSetWrite(root, plan, replacement, o.style, tuning, depth, sizeMax, maxLen, nv);
    if out.Some? && !o.partial {
      FaultFree(SetAt(root, plan, 0, nv, sizeMax).v, depth);
      Edits.EditedDocument(root, plan, 0, nv, sizeMax);
      NewValueIsDocument(Encoding.Scene(heap, o), v, ReplacementBudget(depth, |plan|));
    }
  }
}
