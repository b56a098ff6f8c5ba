/** The encoder's state between steps, what a step may do to it, and how steps compose. */
module EncodeSteps {
  import opened ByteStrings
  import opened Encoding
  import opened Json
  import opened PhpHeap
  import opened Wrappers

  /** `room` is how much the text may grow before anything can fail for its size. */
  datatype State = State(error: Error, hardError: bool, aborted: bool, indent: nat, marks: set<nat>, guards: set<nat>,
                         text: Bytes, room: int)

  function PlaceOf(s: State, remaining: nat): Place {
    Place(remaining, s.marks, s.guards)
  }

  /** Nothing has stopped the encoding so far. */
  predicate Fine(o: Options, s: State) {
    !s.hardError && !s.aborted && s.error != TooLarge && (!o.partial ==> s.error == NoError)
  }

  /** A non-finite number is recorded and its output gone; nothing else has been found yet. */
  predicate Silent(o: Options, s: State) {
    s.hardError && !s.aborted && !o.partial && s.error == NonFinite && s.text == []
  }

  /** A step that succeeds: `text` is appended, the last of its errors recorded, everything else restored. */
  predicate Going(o: Options, a: State, b: State, errors: seq<Error>, text: Bytes) {
    && Fine(o, b) && b.marks == a.marks && b.guards == a.guards && b.indent == a.indent && b.room == a.room
    && b.error == LastError(a.error, errors) && (errors == [] || o.partial)
    && b.text == a.text + text
  }

  /**
   * Stopped: the error is the one to report for `errors`. After a non-finite number the text is gone, and
   * the search for later errors is over exactly when it has found one.
   */
  predicate Failing(o: Options, s: State, errors: seq<Error>) {
    && s.error != NoError
    && (s.hardError ==> !o.partial && s.text == [])
    && (s.aborted ==> s.hardError)
    && (s.error == TooLarge && s.hardError ==> s.aborted)
    && (s.error != TooLarge ==>
          && !o.partial && errors != [] && s.error == Reported(errors)
          && (s.hardError <==> errors[0] == NonFinite)
          && (s.aborted <==> s.hardError && FirstHard(errors) != NoError)
          && (s.hardError || FirstHard(errors) != NoError))
  }

  /** A step that fails restores the marks, guards and indentation all the same. */
  predicate Stopped(o: Options, a: State, b: State, whole: seq<Error>) {
    b.marks == a.marks && b.guards == a.guards && b.indent == a.indent && b.room == a.room && Failing(o, b, whole)
  }

  /** A step fails for its size only if `size` bytes more could be too many. */
  predicate NoRoom(a: State, b: State, size: nat) {
    b.error == TooLarge ==> |a.text| + size > a.room
  }

  /** The search for later errors writes nothing: a string too large for it is too large for any buffer. */
  predicate NoNewRoom(a: State, b: State) {
    b.error == TooLarge ==> a.error == TooLarge || a.room < 0
  }

  /** One step; a failure reports what the whole it belongs to reports. */
  predicate Moved(o: Options, a: State, b: State, ok: bool, errors: seq<Error>, text: Bytes, whole: seq<Error>) {
    if ok then Going(o, a, b, errors, text) else Stopped(o, a, b, whole) && NoRoom(a, b, |text|)
  }

  /** A step of the search for later errors changes the error and nothing else. */
  predicate Discarded(a: State, b: State, ok: bool, errors: seq<Error>) {
    && b == a.(error := b.error)
    && (ok ==> b.error == a.error && FirstHard(errors) == NoError)
    && (!ok ==>
          if b.error == TooLarge then a.room < 0 else FirstHard(errors) != NoError && b.error == FirstHard(errors))
  }

  lemma NothingDiscarded(a: State)
    ensures Discarded(a, a, true, [])
  {
  }

  // ---------------------------------------------------------------- composing steps

  lemma Unmoved(o: Options, a: State, b: State, errors: seq<Error>, text: Bytes, remaining: nat)
    requires Going(o, a, b, errors, text)
    ensures PlaceOf(b, remaining) == PlaceOf(a, remaining) && b.indent == a.indent && Fine(o, b)
            && (errors == [] || o.partial)
  {
  }

  lemma LastErrorAppend(e: Error, a: seq<Error>, b: seq<Error>)
    ensures LastError(LastError(e, a), b) == LastError(e, a + b)
  {
  }

  /** A step after a successful one, within a whole. */
  lemma Then(o: Options, s0: State, s1: State, s2: State, ok: bool, e1: seq<Error>, t1: Bytes, e2: seq<Error>,
             t2: Bytes, whole: seq<Error>)
    requires Going(o, s0, s1, e1, t1) && Moved(o, s1, s2, ok, e2, t2, whole)
    ensures Moved(o, s0, s2, ok, e1 + e2, t1 + t2, whole)
  {
    LastErrorAppend(s0.error, e1, e2);
    ConcatAssociates(s0.text, t1, t2);
    hide Failing, LastError;
  }

  lemma FailedSoFar(o: Options, s: State, before: seq<Error>, errors: seq<Error>)
    requires Failing(o, s, errors) && (before == [] || o.partial)
    ensures Failing(o, s, before + errors)
  {
    assert before == [] ==> before + errors == errors;
  }

  /** Two steps that make up a whole. */
  lemma After(o: Options, s0: State, s1: State, s2: State, ok: bool, e1: seq<Error>, t1: Bytes, e2: seq<Error>,
              t2: Bytes)
    requires Going(o, s0, s1, e1, t1) && Moved(o, s1, s2, ok, e2, t2, e2)
    ensures Moved(o, s0, s2, ok, e1 + e2, t1 + t2, e1 + e2)
  {
    if !ok {
      FailedSoFar(o, s2, e1, e2);
    }
    hide Failing;
    Then(o, s0, s1, s2, ok, e1, t1, e2, t2, e1 + e2);
  }

  lemma AfterLead(o: Options, s0: State, s1: State, s2: State, ok: bool, lead: Bytes, errors: seq<Error>, text: Bytes)
    requires Going(o, s0, s1, [], lead) && Moved(o, s1, s2, ok, errors, text, errors)
    ensures Moved(o, s0, s2, ok, errors, lead + text, errors)
  {
    assert [] + errors == errors;
    hide *;
    After(o, s0, s1, s2, ok, [], lead, errors, text);
  }

  lemma InQuotes(o: Options, s0: State, s1: State, s2: State, s3: State, text: Bytes)
    requires Going(o, s0, s1, [], [QUOTE]) && Going(o, s1, s2, [], text) && Going(o, s2, s3, [], [QUOTE])
    ensures Going(o, s0, s3, [], [QUOTE] + text + [QUOTE])
  {
  }

  lemma KeyErrors(key: Key, o: Options)
    ensures WalkKey(key, o).errors == [] || WalkKey(key, o).errors == [Utf8Error]
  {
    hide Spelled;
  }

  /** A failed key fails the member. */
  lemma KeyFailed(o: Options, a: State, b: State, k: seq<Error>, v: seq<Error>, key: Bytes, value: Bytes)
    requires Moved(o, a, b, false, k, key, k) && (k == [] || k == [Utf8Error])
    ensures Moved(o, a, b, false, k + v, key + value, k + v)
  {
    if k != [] {
      PrefixDecides(k, k + v);
      assert FirstHard([Utf8Error]) == Utf8Error;
    }
  }

  lemma StoppedPlace(o: Options, a: State, b: State, e: seq<Error>, remaining: nat)
    requires Stopped(o, a, b, e)
    ensures PlaceOf(b, remaining) == PlaceOf(a, remaining)
  {
  }

  /** A step that fails, then the search for later errors. */
  lemma StoppedTwice(o: Options, s0: State, s1: State, s2: State, e: seq<Error>, text: Bytes, all: seq<Error>)
    requires Moved(o, s0, s1, false, e, text, e) && Stopped(o, s1, s2, all) && NoNewRoom(s1, s2)
    ensures Moved(o, s0, s2, false, e, text, all)
  {
    hide Failing;
  }

  /** A failure is final for the whole, or is a non-finite number after which the rest is worth a search. */
  lemma Salvageable(o: Options, a: State, part: seq<Error>, all: seq<Error>)
    requires Failing(o, a, part) && part <= all
    ensures a.hardError && !a.aborted ==> Silent(o, a) && Hushed(o, false, part) && all != [] && all[0] == NonFinite
    ensures !(a.hardError && !a.aborted) ==> Stopped(o, a, a, all) && NoNewRoom(a, a)
  {
    if part != [] {
      PrefixDecides(part, all);
    }
  }

  // ---------------------------------------------------------------- brackets

  predicate Opened(o: Options, a: State, b: State, bracket: Byte, nonEmpty: bool) {
    b == a.(indent := if nonEmpty then Inner(a.indent, o.style) else a.indent, text := a.text + [bracket])
  }

  lemma OpenedIsFine(o: Options, a: State, b: State, bracket: Byte, nonEmpty: bool, remaining: nat)
    requires Fine(o, a) && Opened(o, a, b, bracket, nonEmpty)
    ensures Fine(o, b) && PlaceOf(b, remaining) == PlaceOf(a, remaining)
    ensures b.indent == if nonEmpty then Inner(a.indent, o.style) else a.indent
  {
  }

  lemma Framed(o: Options, s0: State, s1: State, s2: State, bracket: Byte, nonEmpty: bool, errors: seq<Error>,
               body: Bytes)
    requires Opened(o, s0, s1, bracket, nonEmpty) && Going(o, s1, s2, errors, body)
    ensures Fine(o, s2) && s2.indent == if nonEmpty then Inner(s0.indent, o.style) else s0.indent
  {
  }

  lemma Bracketed(o: Options, s0: State, s1: State, s2: State, s3: State, bracket: Byte, nonEmpty: bool,
                  errors: seq<Error>, body: Bytes, tail: Bytes, printed: Bytes)
    requires Opened(o, s0, s1, bracket, nonEmpty) && Going(o, s1, s2, errors, body)
    requires s3 == s2.(indent := s0.indent, text := s2.text + tail)
    requires s0.text + [bracket] + body + tail == s0.text + printed
    ensures Going(o, s0, s3, errors, printed)
  {
  }

  lemma FramedStop(o: Options, s0: State, s1: State, s2: State, bracket: Byte, nonEmpty: bool, errors: seq<Error>,
                   body: Bytes)
    requires Opened(o, s0, s1, bracket, nonEmpty) && Moved(o, s1, s2, false, errors, body, errors)
    ensures s2.indent == if nonEmpty then Inner(s0.indent, o.style) else s0.indent
  {
  }

  lemma Unbracketed(o: Options, s0: State, s1: State, s2: State, s3: State, bracket: Byte, nonEmpty: bool,
                    errors: seq<Error>, body: Bytes, tail: Bytes, printed: Bytes)
    requires Opened(o, s0, s1, bracket, nonEmpty) && Moved(o, s1, s2, false, errors, body, errors)
    requires s3 == s2.(indent := s0.indent) && s0.text + [bracket] + body + tail == s0.text + printed
    ensures Moved(o, s0, s3, false, errors, printed, errors)
  {
    assert |s0.text + [bracket] + body + tail| == |s0.text + printed|;
    hide FirstHard;
  }

  // ---------------------------------------------------------------- marks and guards

  /** A container is marked while what it holds is walked. */
  lemma MarkCleared(o: Options, a: State, b: State, id: nat, ok: bool, errors: seq<Error>, text: Bytes)
    requires id !in a.marks && Moved(o, a.(marks := a.marks + {id}), b, ok, errors, text, errors)
    ensures Moved(o, a, b.(marks := b.marks - {id}), ok, errors, text, errors)
  {
    hide FirstHard, LastError;
    assert a.marks + {id} - {id} == a.marks;
  }

  lemma GuardCleared(o: Options, a: State, b: State, id: nat, ok: bool, errors: seq<Error>, text: Bytes)
    requires id !in a.guards && Moved(o, a.(guards := a.guards + {id}), b, ok, errors, text, errors)
    ensures Moved(o, a, b.(guards := b.guards - {id}), ok, errors, text, errors)
  {
    hide FirstHard, LastError;
    assert a.guards + {id} - {id} == a.guards;
  }

  /** An empty body looks the same at every level. */
  lemma NothingPrinted(items: seq<Value>, members: seq<Entry<Value>>, a: nat, b: nat, st: Style)
    ensures PrintItems(items, 0, a, st) == PrintItems(items, 0, b, st)
    ensures PrintMembers(members, 0, a, st) == PrintMembers(members, 0, b, st)
  {
  }

  lemma SubstituteText(level: nat, st: Style)
    ensures Print(ZERO, level, st) == [DIGIT_0]
    ensures Print(Null, level, st) == NULL_TEXT
    ensures Print(Obj([]), level, st) == [LEFT_BRACE, RIGHT_BRACE]
  {
    assert PrintMembers(Obj([]).members, 0, Inner(level, st), st) == [];
  }

  // ---------------------------------------------------------------- object bodies

  function BodyText(s: Scene, props: seq<Prop>, k: nat, p: Place, level: nat): Bytes
    requires k <= |props|
  {
    var tree := WalkProps(s, props, k, p, false).tree;
    PrintMembers(tree, |tree|, Inner(level, s.o.style), s.o.style)
  }

  /** Inside an object after `k` properties; the body is indented once a property has shown. */
  predicate InBody(s: Scene, props: seq<Prop>, k: nat, s0: State, b: State, remaining: nat, first: bool, bodyOpen: bool)
    requires k <= |props|
  {
    var w := WalkProps(s, props, k, PlaceOf(s0, remaining), false);
    && Going(s.o, s0.(text := s0.text + [LEFT_BRACE]), b.(indent := s0.indent), w.errors,
             BodyText(s, props, k, PlaceOf(s0, remaining), s0.indent))
    && b.indent == (if bodyOpen then s0.indent + 1 else s0.indent)
    && (first <==> w.tree == []) && (bodyOpen <==> s.o.style.pretty && !first)
  }

  /** Stopped inside an object. */
  predicate LeftBody(s: Scene, props: seq<Prop>, s0: State, b: State, remaining: nat, bodyOpen: bool) {
    var w := WalkProps(s, props, |props|, PlaceOf(s0, remaining), false);
    && Moved(s.o, s0, b.(indent := s0.indent), false, w.errors, Print(Obj(w.tree), s0.indent, s.o.style), w.errors)
    && b.indent == (if bodyOpen then s0.indent + 1 else s0.indent) && (bodyOpen ==> s.o.style.pretty)
  }

  lemma BodyStarts(s: Scene, props: seq<Prop>, s0: State, b: State, remaining: nat)
    requires Going(s.o, s0, b, [], [LEFT_BRACE])
    ensures InBody(s, props, 0, s0, b, remaining, true, false)
  {
  }

  lemma BodyHere(s: Scene, props: seq<Prop>, k: nat, s0: State, b: State, remaining: nat, first: bool, bodyOpen: bool)
    requires k <= |props| && InBody(s, props, k, s0, b, remaining, first, bodyOpen)
    ensures b.indent == if bodyOpen then s0.indent + 1 else s0.indent
    ensures b.guards == s0.guards && (bodyOpen ==> s.o.style.pretty)
  {
    hide WalkProps;
  }

  lemma NothingShown(s: Scene, props: seq<Prop>, k: nat, s0: State, b: State, remaining: nat, first: bool,
                     bodyOpen: bool)
    requires k < |props| && InBody(s, props, k, s0, b, remaining, first, bodyOpen) && Shown(props[k], false).None?
    ensures InBody(s, props, k + 1, s0, b, remaining, first, bodyOpen)
  {
    PropsStep(s, props, k, PlaceOf(s0, remaining));
    hide WalkProps, Shown, Print, PrintMembers;
  }

  lemma BodyOpens(s: Scene, props: seq<Prop>, k: nat, s0: State, s1: State, s2: State, remaining: nat, first: bool,
                  bodyOpen: bool, open: bool)
    requires k < |props| && InBody(s, props, k, s0, s1, remaining, first, bodyOpen) && open == s.o.style.pretty
    requires s2 == s1.(indent := if open then s0.indent + 1 else s1.indent)
    ensures Fine(s.o, s2) && PlaceOf(s2, remaining) == PlaceOf(s0, remaining)
            && s2.indent == Inner(s0.indent, s.o.style)
    ensures var w := WalkProps(s, props, k, PlaceOf(s0, remaining), false);
            (w.errors == [] || s.o.partial) && (first <==> |w.tree| == 0)
  {
    hide WalkProps;
  }

  /** A property that shows adds one member. */
  lemma PropShown(s: Scene, props: seq<Prop>, k: nat, p: Place, level: nat, value: Data)
    requires k < |props| && Shown(props[k], false) == Some(value)
    requires WalkProps(s, props, k, p, false).errors == [] || s.o.partial
    ensures var w, m := WalkProps(s, props, k, p, false), WalkMember(s, props[k].key, value, p, false);
            && WalkProps(s, props, k + 1, p, false) == Walked(w.errors + m.errors, w.tree + [m.tree])
            && BodyText(s, props, k + 1, p, level)
               == BodyText(s, props, k, p, level) + PieceText(m.tree, |w.tree|, Inner(level, s.o.style), s.o.style)
  {
    var w, m := WalkProps(s, props, k, p, false), WalkMember(s, props[k].key, value, p, false);
    PropsStep(s, props, k, p);
    hide WalkProps, WalkMember, Print, PrintMembers, PieceText, Shown;
    MemberAppended(w.tree, m.tree, Inner(level, s.o.style), s.o.style);
  }

  lemma BodyGrows(s: Scene, props: seq<Prop>, k: nat, s0: State, s1: State, s2: State, s3: State, remaining: nat,
                  first: bool, bodyOpen: bool, open: bool, value: Data, ok: bool)
    requires k < |props| && InBody(s, props, k, s0, s1, remaining, first, bodyOpen) && open == s.o.style.pretty
    requires s2 == s1.(indent := if open then s0.indent + 1 else s1.indent) && Shown(props[k], false) == Some(value)
    requires var w, p := WalkProps(s, props, k, PlaceOf(s0, remaining), false), PlaceOf(s0, remaining);
             var m := WalkMember(s, props[k].key, value, p, false);
             Moved(s.o, s2, s3, ok, m.errors, PieceText(m.tree, |w.tree|, s2.indent, s.o.style),
                  WalkProps(s, props, |props|, p, false).errors)
    ensures ok ==> InBody(s, props, k + 1, s0, s3, remaining, false, open)
    ensures !ok ==> LeftBody(s, props, s0, s3, remaining, open)
  {
    hide WalkProps, WalkMember, PieceText, BodyText, FirstHard, LastError, Shown, Print;
    var o, p, level := s.o, PlaceOf(s0, remaining), Inner(s0.indent, s.o.style);
    var w, m := WalkProps(s, props, k, p, false), WalkMember(s, props[k].key, value, p, false);
    var piece, text := PieceText(m.tree, |w.tree|, level, o.style), BodyText(s, props, k, p, s0.indent);
    var all := WalkProps(s, props, |props|, p, false).errors;
    BodyRoom(s, props, k + 1, p, s0.indent);
    PropShown(s, props, k, p, s0.indent, value);
    assert s2.indent == level;
    Reindented(o, s2, s3, ok, m.errors, piece, all, s0.indent);
    hide Going, Stopped;
    assert s2.(indent := s0.indent) == s1.(indent := s0.indent);
    Then(o, s0.(text := s0.text + [LEFT_BRACE]), s1.(indent := s0.indent), s3.(indent := s0.indent), ok, w.errors, text,
         m.errors, piece, all);
    if !ok {
      InBrace(o, s0, s3.(indent := s0.indent), w.errors + m.errors, text + piece, all,
              Print(Obj(WalkProps(s, props, |props|, p, false).tree), s0.indent, o.style));
    }
  }

  /** An object's first members take less room than the object. */
  lemma BodyRoom(s: Scene, props: seq<Prop>, k: nat, p: Place, level: nat)
    requires k <= |props|
    ensures 1 + |BodyText(s, props, k, p, level)|
         <= |Print(Obj(WalkProps(s, props, |props|, p, false).tree), level, s.o.style)|
  {
    var part, all := WalkProps(s, props, k, p, false).tree, WalkProps(s, props, |props|, p, false).tree;
    PropsExtend(s, props, k, |props|, p, false);
    hide WalkProps, Print, PrintMembers, Trail;
    PrintMembersFit(part, all, Inner(level, s.o.style), s.o.style);
    ObjectText([], all, level, s.o.style);
  }

  /** Stopped after an opening brace: stopped in the object. */
  lemma InBrace(o: Options, s0: State, b: State, errors: seq<Error>, text: Bytes, all: seq<Error>, printed: Bytes)
    requires Moved(o, s0.(text := s0.text + [LEFT_BRACE]), b, false, errors, text, all) && 1 + |text| <= |printed|
    ensures Moved(o, s0, b, false, all, printed, all)
  {
    hide Failing;
  }

  /** A step does not depend on the indentation it restores. */
  lemma Reindented(o: Options, a: State, b: State, ok: bool, errors: seq<Error>, text: Bytes, whole: seq<Error>,
                   level: nat)
    requires Moved(o, a, b, ok, errors, text, whole)
    ensures b.indent == a.indent && Moved(o, a.(indent := level), b.(indent := level), ok, errors, text, whole)
  {
    hide FirstHard, LastError;
  }

  lemma BodyLeft(s: Scene, props: seq<Prop>, s0: State, s1: State, remaining: nat, bodyOpen: bool)
    requires LeftBody(s, props, s0, s1, remaining, bodyOpen)
    ensures s1.indent == if bodyOpen then Inner(s0.indent, s.o.style) else s0.indent
  {
    hide WalkProps, Stopped, Print;
  }

  lemma BodyAbandoned(s: Scene, props: seq<Prop>, s0: State, s1: State, s2: State, remaining: nat, bodyOpen: bool)
    requires LeftBody(s, props, s0, s1, remaining, bodyOpen) && s2 == s1.(indent := s0.indent)
    ensures var w := WalkProps(s, props, |props|, PlaceOf(s0, remaining), false);
            Moved(s.o, s0, s2, false, w.errors, Print(Obj(w.tree), s0.indent, s.o.style), w.errors)
  {
    hide WalkProps, Stopped, Print;
  }

  lemma BodyEnds(s: Scene, props: seq<Prop>, s0: State, s1: State, remaining: nat, first: bool, bodyOpen: bool)
    requires InBody(s, props, |props|, s0, s1, remaining, first, bodyOpen)
    ensures Fine(s.o, s1) && s1.indent == if bodyOpen then Inner(s0.indent, s.o.style) else s0.indent
  {
    hide WalkProps;
  }

  lemma BodyClosed(s: Scene, props: seq<Prop>, s0: State, s1: State, s2: State, remaining: nat, first: bool,
                   bodyOpen: bool)
    requires InBody(s, props, |props|, s0, s1, remaining, first, bodyOpen)
    requires s2 == s1.(indent := s0.indent,
                       text := s1.text + (Trail(if bodyOpen then 1 else 0, s0.indent, s.o.style) + [RIGHT_BRACE]))
    ensures var w := WalkProps(s, props, |props|, PlaceOf(s0, remaining), false);
            Going(s.o, s0, s2, w.errors, Print(Obj(w.tree), s0.indent, s.o.style))
  {
    var w := WalkProps(s, props, |props|, PlaceOf(s0, remaining), false);
    ObjectText(s0.text, w.tree, s0.indent, s.o.style);
    assert Trail(if bodyOpen then 1 else 0, s0.indent, s.o.style) == Trail(|w.tree|, s0.indent, s.o.style);
    hide WalkProps, Print, PrintMembers, Trail;
  }

  // ---------------------------------------------------------------- elements, one after another

  /** Inside a list after `k` elements. */
  predicate InItems(s: Scene, elems: seq<Elem>, k: nat, s0: State, b: State, remaining: nat)
    requires k <= |elems|
  {
    var w := WalkItems(s, elems, k, PlaceOf(s0, remaining), false);
    Going(s.o, s0, b, w.errors, PrintItems(w.tree, k, s0.indent, s.o.style))
  }

  lemma ItemsStart(s: Scene, elems: seq<Elem>, s0: State, remaining: nat)
    requires Fine(s.o, s0)
    ensures InItems(s, elems, 0, s0, s0, remaining)
  {
  }

  lemma ItemsHere(s: Scene, elems: seq<Elem>, k: nat, s0: State, b: State, remaining: nat)
    requires k <= |elems| && InItems(s, elems, k, s0, b, remaining)
    ensures Fine(s.o, b) && PlaceOf(b, remaining) == PlaceOf(s0, remaining) && b.indent == s0.indent
    ensures WalkItems(s, elems, k, PlaceOf(s0, remaining), false).errors == [] || s.o.partial
  {
    hide WalkItems, PrintItems;
  }

  lemma ItemsContinue(s: Scene, elems: seq<Elem>, k: nat, s0: State, s1: State, s2: State, remaining: nat, ok: bool)
    requires k < |elems| && InItems(s, elems, k, s0, s1, remaining)
    requires var p := PlaceOf(s0, remaining);
             var item := Walk(s, elems[k].value, p, false);
             Moved(s.o, s1, s2, ok, item.errors, Lead(k, s0.indent, s.o.style) + Print(item.tree, s0.indent, s.o.style),
                   WalkItems(s, elems, |elems|, p, false).errors)
    ensures ok ==> InItems(s, elems, k + 1, s0, s2, remaining)
    ensures var w := WalkItems(s, elems, |elems|, PlaceOf(s0, remaining), false);
            !ok ==> Moved(s.o, s0, s2, false, w.errors, PrintItems(w.tree, |elems|, s0.indent, s.o.style), w.errors)
  {
    hide WalkItems, Walk, PrintItems, Print, Lead, Going, Stopped;
    var p, level := PlaceOf(s0, remaining), s0.indent;
    var w, item := WalkItems(s, elems, k, p, false), Walk(s, elems[k].value, p, false);
    var text, piece := PrintItems(w.tree, k, level, s.o.style),
        Lead(k, level, s.o.style) + Print(item.tree, level, s.o.style);
    ItemsHere(s, elems, k, s0, s1, remaining);
    ItemsStep(s, elems, k, p);
    ItemAppended(w.tree, item.tree, level, s.o.style);
    var all := WalkItems(s, elems, |elems|, p, false);
    Then(s.o, s0, s1, s2, ok, w.errors, text, item.errors, piece, all.errors);
    ItemsExtend(s, elems, k + 1, |elems|, p, false);
    PrintItemsFit(WalkItems(s, elems, k + 1, p, false).tree, all.tree, level, s.o.style);
  }

  /** Inside an array printed as an object after `k` elements. */
  predicate InMembers(s: Scene, elems: seq<Elem>, k: nat, s0: State, b: State, remaining: nat)
    requires k <= |elems|
  {
    var w := WalkMembers(s, elems, k, PlaceOf(s0, remaining), false);
    Going(s.o, s0, b, w.errors, PrintMembers(w.tree, k, s0.indent, s.o.style))
  }

  lemma MembersStart(s: Scene, elems: seq<Elem>, s0: State, remaining: nat)
    requires Fine(s.o, s0)
    ensures InMembers(s, elems, 0, s0, s0, remaining)
  {
  }

  lemma MembersHere(s: Scene, elems: seq<Elem>, k: nat, s0: State, b: State, remaining: nat)
    requires k <= |elems| && InMembers(s, elems, k, s0, b, remaining)
    ensures Fine(s.o, b) && PlaceOf(b, remaining) == PlaceOf(s0, remaining) && b.indent == s0.indent
    ensures WalkMembers(s, elems, k, PlaceOf(s0, remaining), false).errors == [] || s.o.partial
  {
    hide WalkMembers, PrintMembers;
  }

  lemma MembersContinue(s: Scene, elems: seq<Elem>, k: nat, s0: State, s1: State, s2: State, remaining: nat, ok: bool)
    requires k < |elems| && InMembers(s, elems, k, s0, s1, remaining)
    requires var p := PlaceOf(s0, remaining);
             var m := WalkMember(s, elems[k].key, elems[k].value, p, false);
             Moved(s.o, s1, s2, ok, m.errors, PieceText(m.tree, k, s0.indent, s.o.style),
                   WalkMembers(s, elems, |elems|, p, false).errors)
    ensures ok ==> InMembers(s, elems, k + 1, s0, s2, remaining)
    ensures var w := WalkMembers(s, elems, |elems|, PlaceOf(s0, remaining), false);
            !ok ==> Moved(s.o, s0, s2, false, w.errors, PrintMembers(w.tree, |elems|, s0.indent, s.o.style), w.errors)
  {
    hide WalkMembers, WalkMember, PrintMembers, PieceText, Going, Stopped;
    var p, level := PlaceOf(s0, remaining), s0.indent;
    var w, m := WalkMembers(s, elems, k, p, false), WalkMember(s, elems[k].key, elems[k].value, p, false);
    var text := PrintMembers(w.tree, k, level, s.o.style);
    MembersHere(s, elems, k, s0, s1, remaining);
    MembersStep(s, elems, k, p);
    MemberAppended(w.tree, m.tree, level, s.o.style);
    var all := WalkMembers(s, elems, |elems|, p, false);
    Then(s.o, s0, s1, s2, ok, w.errors, text, m.errors, PieceText(m.tree, k, level, s.o.style), all.errors);
    MembersExtend(s, elems, k + 1, |elems|, p, false);
    PrintMembersFit(WalkMembers(s, elems, k + 1, p, false).tree, all.tree, level, s.o.style);
  }
}
