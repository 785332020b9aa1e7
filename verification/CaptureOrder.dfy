/**
 * The order in which fragments are hidden, and what it means for restoring
 * them (src/shared/parse-command.ts, lines 155-218 and 379-407).
 *
 * Which spans a pass matches is arbitrary here; LinePasses says what the patterns
 * match. What matters is that a fragment can only hold placeholders of passes that
 * came before its own.
 */
module CaptureOrder {
  import opened Text
  import opened Placeholders

  const CAPTURE_COUNT: nat := 10

  /** The passes in the order of the source: one for each regular expression or scanner. */
  function CaptureKind(n: nat): Kind
    requires n < CAPTURE_COUNT
  {
    if n == 0 then Redirection
    else if n <= 2 then Arithmetic
    else if n == 3 then Parameter
    else if n == 4 then Subshell
    else if n <= 6 then Variable
    else if n <= 8 then Subshell
    else Quote
  }

  predicate InSourceOrder(captures: seq<Capture>) {
    |captures| == CAPTURE_COUNT && forall i :: 0 <= i < |captures| ==> captures[i].kind == CaptureKind(i)
  }

  /** What is stored has the references of what was matched. Blanks and delimiters may be left out. */
  predicate KeepsRefs(matched: Symbols, stored: Symbols) {
    && (forall i :: 0 <= i < |matched| && matched[i].Ref? ==> matched[i] in stored)
    && (forall i :: 0 <= i < |stored| && stored[i].Ref? ==> stored[i] in matched)
  }

  predicate Faithful(segments: seq<Segment>) {
    segments == [] || ((segments[0].Span? ==> KeepsRefs(segments[0].matched, segments[0].stored)) && Faithful(segments[1..]))
  }

  lemma {:induction false} ExactIsFaithful(kind: Kind, segments: seq<Segment>)
    requires Capture(kind, segments).Exact()
    ensures Faithful(segments)
  {
    if segments != [] {
      forall i | 0 <= i < |segments[1..]| && segments[1..][i].Span?
        ensures Wrap(kind, segments[1..][i].stored) == segments[1..][i].matched
      {
        assert segments[1..][i] == segments[i + 1];
      }
      ExactIsFaithful(kind, segments[1..]);
      if segments[0].Span? {
        WrapKeepsRefs(kind, segments[0].stored);
      }
    }
  }

  lemma WrapKeepsRefs(kind: Kind, stored: Symbols)
    ensures KeepsRefs(Wrap(kind, stored), stored)
  {
    var open, close := Plain("$("), Plain(")");
    var wrapped := open + stored + close;
    forall i | 0 <= i < |wrapped| && wrapped[i].Ref? ensures wrapped[i] in stored {
      assert |open| <= i < |open| + |stored|;
      assert wrapped[i] == stored[i - |open|];
    }
    forall i | 0 <= i < |stored| ensures stored[i] in wrapped {
      assert wrapped[|open| + i] == stored[i];
    }
  }

  // ---------------------------------------------------------------- restorable means ordered

  /** Some stretch of the passes restores the reference completely. */
  ghost predicate RestoredSomewhere(store: Store, s: Symbol) {
    exists p :: 0 <= p <= PASS_COUNT && SymbolRestorable(store, p, s)
  }

  ghost predicate AllRestoredSomewhere(store: Store, text: Symbols) {
    forall i :: 0 <= i < |text| && text[i].Ref? ==> RestoredSomewhere(store, text[i])
  }

  lemma {:induction false} RankAtLeast(store: Store, p: nat, s: Symbol)
    requires p <= PASS_COUNT && s.Ref? && SymbolRestorable(store, p, s)
    ensures Rank(s.kind) >= p
    decreases PASS_COUNT - p
  {
    if Pass(p) != s.kind {
      RankAtLeast(store, p + 1, s);
    }
  }

  /** A fragment that is restored completely refers to later kinds only, and so do its own references. */
  lemma {:induction false} RestoredIsRanked(store: Store, p: nat, s: Symbol)
    requires p <= PASS_COUNT && s.Ref? && SymbolRestorable(store, p, s) && s.id < |store.Of(s.kind)|
    requires s.kind == Redirection ==> RefFree(store.Of(s.kind)[s.id])
    ensures AllRanked(store.Of(s.kind)[s.id], Rank(s.kind) + 1)
    ensures AllRestoredSomewhere(store, store.Of(s.kind)[s.id])
    decreases PASS_COUNT - p
  {
    if Pass(p) != s.kind {
      RestoredIsRanked(store, p + 1, s);
    } else if s.kind != Redirection {
      var inner := store.Of(s.kind)[s.id];
      forall i | 0 <= i < |inner| && inner[i].Ref?
        ensures Rank(inner[i].kind) >= Rank(s.kind) + 1 && RestoredSomewhere(store, inner[i])
      {
        InnerIsRestorable(store, p, s, i);
        RankAtLeast(store, p + 1, inner[i]);
      }
    }
  }

  lemma InnerIsRestorable(store: Store, p: nat, s: Symbol, i: nat)
    requires p < PASS_COUNT && s.Ref? && Pass(p) == s.kind && SymbolRestorable(store, p, s)
    requires s.id < |store.Of(s.kind)| && i < |store.Of(s.kind)[s.id]|
    ensures SymbolRestorable(store, p + 1, store.Of(s.kind)[s.id][i])
  {
    var inner, fragment := store.Of(s.kind)[s.id], Fragment(store, s.kind, s.id);
    var at := if s.kind == Subshell then 2 + i else i;
    assert fragment[at] == inner[i];
  }

  /** The references of a pass's input, and the fragments it stores, told by its output. */
  lemma {:induction false} SegmentsBack(store: Store, kind: Kind, segments: seq<Segment>, first: nat)
    requires Holds(store, kind, segments, first) && Faithful(segments)
    requires AllRestoredSomewhere(store, Output(kind, segments, first))
    requires kind == Redirection ==> forall j :: 0 <= j < |Stored(segments)| ==> RefFree(Stored(segments)[j])
    ensures AllRestoredSomewhere(store, Input(segments))
    ensures forall j :: 0 <= j < |Stored(segments)| ==> AllRanked(Stored(segments)[j], Rank(kind) + 1)
    decreases |segments|
  {
    if segments != [] {
      var rest := segments[1..];
      match segments[0]
      case Keep(s) =>
        SomewhereAppend(store, [s], Output(kind, rest, first));
        assert Stored(segments) == Stored(rest);
        SegmentsBack(store, kind, rest, first);
        SomewhereAppend(store, [s], Input(rest));
      case Span(matched, stored) =>
        var ref := Ref(kind, first);
        assert Stored(segments) == [stored] + Stored(rest);
        SomewhereAppend(store, [ref], Output(kind, rest, first + 1));
        forall j | 0 <= j < |Stored(rest)| ensures Stored(rest)[j] == Stored(segments)[j + 1] {}
        SegmentsBack(store, kind, rest, first + 1);
        assert [ref][0] == ref;
        var p :| 0 <= p <= PASS_COUNT && SymbolRestorable(store, p, ref);
        assert Stored(segments)[0] == stored;
        RestoredIsRanked(store, p, ref);
        MatchedIsRestored(store, matched, stored);
        SomewhereAppend(store, matched, Input(rest));
    }
  }

  lemma MatchedIsRestored(store: Store, matched: Symbols, stored: Symbols)
    requires KeepsRefs(matched, stored) && AllRestoredSomewhere(store, stored)
    ensures AllRestoredSomewhere(store, matched)
  {
    forall i | 0 <= i < |matched| && matched[i].Ref? ensures RestoredSomewhere(store, matched[i]) {
      var j :| 0 <= j < |stored| && stored[j] == matched[i];
    }
  }

  lemma SomewhereAppend(store: Store, a: Symbols, b: Symbols)
    ensures AllRestoredSomewhere(store, a + b) <==> AllRestoredSomewhere(store, a) && AllRestoredSomewhere(store, b)
  {
    if AllRestoredSomewhere(store, a + b) {
      forall i | 0 <= i < |a| && a[i].Ref? ensures RestoredSomewhere(store, a[i]) {
        assert (a + b)[i] == a[i];
      }
      forall i | 0 <= i < |b| && b[i].Ref? ensures RestoredSomewhere(store, b[i]) {
        assert (a + b)[|a| + i] == b[i];
      }
    }
  }

  lemma {:induction false} StoreGrows(store: Store, captures: seq<Capture>)
    ensures Extends(store, StoreAfter(store, captures))
    decreases |captures|
  {
    if captures != [] {
      StoreGrows(store.Push(captures[0].kind, Stored(captures[0].segments)), captures[1..]);
    }
  }

  lemma {:induction false} HoldsInBigger(store: Store, next: Store, kind: Kind, segments: seq<Segment>, first: nat)
    requires Extends(store, next) && Holds(store, kind, segments, first)
    ensures Holds(next, kind, segments, first)
    decreases |segments|
  {
    if segments != [] {
      match segments[0]
      case Keep(_) =>
        HoldsInBigger(store, next, kind, segments[1..], first);
      case Span(_, _) =>
        assert next.Of(kind)[first] == next.Of(kind)[..|store.Of(kind)|][first];
        HoldsInBigger(store, next, kind, segments[1..], first + 1);
    }
  }

  /** Redirections are matched in plain text. */
  predicate PlainRedirections(captures: seq<Capture>) {
    forall i, j :: 0 <= i < |captures| && captures[i].kind == Redirection && 0 <= j < |Stored(captures[i].segments)| ==>
      RefFree(Stored(captures[i].segments)[j])
  }

  predicate AllFaithful(captures: seq<Capture>) {
    forall i :: 0 <= i < |captures| ==> Faithful(captures[i].segments)
  }

  /** The fragments stored since `before` refer to kinds that are restored after their own. */
  predicate RankedSince(before: Store, end: Store) {
    forall kind, id :: |before.Of(kind)| <= id < |end.Of(kind)| ==> AllRanked(end.Of(kind)[id], Rank(kind) + 1)
  }

  lemma RankedStep(store: Store, c: Capture, end: Store)
    requires var next := store.Push(c.kind, Stored(c.segments)); Extends(next, end) && RankedSince(next, end)
    requires forall j :: 0 <= j < |Stored(c.segments)| ==> AllRanked(Stored(c.segments)[j], Rank(c.kind) + 1)
    ensures RankedSince(store, end)
  {
    var next := store.Push(c.kind, Stored(c.segments));
    forall kind, id | |store.Of(kind)| <= id < |end.Of(kind)| ensures AllRanked(end.Of(kind)[id], Rank(kind) + 1) {
      if id < |next.Of(kind)| {
        assert kind == c.kind;
        assert end.Of(kind)[id] == end.Of(kind)[..|next.Of(kind)|][id];
        assert next.Of(kind)[id] == Stored(c.segments)[id - |store.Of(kind)|];
      }
    }
  }

  /** If what is left at the end is restorable, everything stored on the way is ordered. */
  lemma {:induction false} RunBack(store: Store, text: Symbols, captures: seq<Capture>)
    requires IsRun(store, text, captures) && AllFaithful(captures) && PlainRedirections(captures)
    requires Restorable(StoreAfter(store, captures), 0, TextAfter(store, text, captures))
    ensures AllRestoredSomewhere(StoreAfter(store, captures), text)
    ensures RankedSince(store, StoreAfter(store, captures))
    decreases |captures|
  {
    if captures != [] {
      var c, rest := captures[0], captures[1..];
      var next := store.Push(c.kind, Stored(c.segments));
      var end := StoreAfter(store, captures);
      forall i | 0 <= i < |rest| ensures rest[i] == captures[i + 1] {}
      RunBack(next, Output(c.kind, c.segments, |store.Of(c.kind)|), rest);
      StoreGrows(next, rest);
      PushHolds(next, c.kind, store.Of(c.kind), c.segments);
      HoldsInBigger(next, end, c.kind, c.segments, |store.Of(c.kind)|);
      SegmentsBack(end, c.kind, c.segments, |store.Of(c.kind)|);
      RankedStep(store, c, end);
    }
  }

  lemma RankedIsOrdered(store: Store)
    requires RankedSince(EMPTY, store)
    ensures Ordered(store)
  {
    forall kind, id | 0 <= id < |store.Of(kind)| ensures AllRanked(store.Of(kind)[id], Rank(kind) + 1) {
      assert EMPTY.Of(kind) == [];
    }
  }

  /**
   * Whatever spans the passes match: what they leave can be restored exactly when
   * every stored fragment refers only to kinds that are restored after its own.
   */
  lemma RestorableExactlyWhenOrdered(command: Symbols, captures: seq<Capture>)
    requires RefFree(command) && IsRun(EMPTY, command, captures)
    requires AllFaithful(captures) && PlainRedirections(captures)
    ensures var store, left := StoreAfter(EMPTY, captures), TextAfter(EMPTY, command, captures);
      Restorable(store, 0, left) <==> Ordered(store)
  {
    var store, left := StoreAfter(EMPTY, captures), TextAfter(EMPTY, command, captures);
    if Ordered(store) {
      OrderedStoresRestoreEverything(store, left);
    }
    if Restorable(store, 0, left) {
      RunBack(EMPTY, command, captures);
      RankedIsOrdered(store);
    }
  }

  // ---------------------------------------------------------------- the order of the source

  predicate Only(text: Symbols, kinds: set<Kind>) {
    forall i :: 0 <= i < |text| && text[i].Ref? ==> text[i].kind in kinds
  }

  /** The kinds a fragment can hold at all, since their passes come before. */
  function Earlier(kind: Kind): set<Kind> {
    match kind
    case Redirection => {}
    case ArrayIndex => {}
    case Arithmetic => {Redirection, Arithmetic}
    case Parameter => {Redirection, Arithmetic}
    case Variable => {Redirection, Arithmetic, Parameter, Subshell, Variable}
    case Subshell => {Redirection, Arithmetic, Parameter, Subshell, Variable}
    case Quote => {Redirection, Arithmetic, Parameter, Subshell, Variable}
  }

  /** The kinds of the first `n` passes. */
  function Seen(n: nat): (kinds: set<Kind>)
    requires n <= CAPTURE_COUNT
  {
    if n == 0 then {} else Seen(n - 1) + {CaptureKind(n - 1)}
  }

  lemma SeenIsEarlier(n: nat)
    requires n < CAPTURE_COUNT
    ensures Seen(n) <= Earlier(CaptureKind(n))
  {
    assert Seen(0) == {};
    assert Seen(1) == {Redirection};
    assert Seen(2) == Seen(3) == {Redirection, Arithmetic};
    assert Seen(4) == {Redirection, Arithmetic, Parameter};
    assert Seen(5) == {Redirection, Arithmetic, Parameter, Subshell};
    assert Seen(6) == Seen(7) == Seen(8) == Seen(9) == {Redirection, Arithmetic, Parameter, Subshell, Variable};
  }

  predicate Limited(store: Store) {
    forall kind, id :: 0 <= id < |store.Of(kind)| ==> Only(store.Of(kind)[id], Earlier(kind))
  }

  lemma {:induction false} SegmentsOnly(kind: Kind, segments: seq<Segment>, first: nat, kinds: set<Kind>)
    requires Faithful(segments) && Only(Input(segments), kinds)
    ensures Only(Output(kind, segments, first), kinds + {kind})
    ensures forall j :: 0 <= j < |Stored(segments)| ==> Only(Stored(segments)[j], kinds)
    decreases |segments|
  {
    if segments != [] {
      var rest := segments[1..];
      match segments[0]
      case Keep(s) =>
        OnlyAppend([s], Input(rest), kinds);
        SegmentsOnly(kind, rest, first, kinds);
        OnlyAppend([s], Output(kind, rest, first), kinds + {kind});
      case Span(matched, stored) =>
        OnlyAppend(matched, Input(rest), kinds);
        SegmentsOnly(kind, rest, first + 1, kinds);
        OnlyAppend([Ref(kind, first)], Output(kind, rest, first + 1), kinds + {kind});
        assert Stored(segments) == [stored] + Stored(rest);
        forall i | 0 <= i < |stored| && stored[i].Ref? ensures stored[i].kind in kinds {
          var j :| 0 <= j < |matched| && matched[j] == stored[i];
        }
    }
  }

  lemma OnlyAppend(a: Symbols, b: Symbols, kinds: set<Kind>)
    ensures Only(a + b, kinds) <==> Only(a, kinds) && Only(b, kinds)
  {
    if Only(a + b, kinds) {
      forall i | 0 <= i < |a| && a[i].Ref? ensures a[i].kind in kinds {
        assert (a + b)[i] == a[i];
      }
      forall i | 0 <= i < |b| && b[i].Ref? ensures b[i].kind in kinds {
        assert (a + b)[|a| + i] == b[i];
      }
    }
  }

  /** The captures are the last passes, from the `n`th on. */
  predicate FromPass(captures: seq<Capture>, n: nat) {
    n + |captures| == CAPTURE_COUNT && forall i :: 0 <= i < |captures| ==> captures[i].kind == CaptureKind(n + i)
  }

  lemma LaterPasses(captures: seq<Capture>, n: nat)
    requires captures != [] && FromPass(captures, n) && AllFaithful(captures)
    ensures FromPass(captures[1..], n + 1) && AllFaithful(captures[1..])
    ensures n < CAPTURE_COUNT && captures[0].kind == CaptureKind(n) && Faithful(captures[0].segments)
  {
    forall i | 0 <= i < |captures[1..]| ensures captures[1..][i] == captures[i + 1] {}
  }

  /** The same, one pass after the other. */
  predicate Passes(captures: seq<Capture>, n: nat) {
    if captures == [] then n == CAPTURE_COUNT
    else
      && n < CAPTURE_COUNT && captures[0].kind == CaptureKind(n) && Faithful(captures[0].segments)
      && Passes(captures[1..], n + 1)
  }

  lemma {:induction false} ArePasses(captures: seq<Capture>, n: nat)
    requires FromPass(captures, n) && AllFaithful(captures)
    ensures Passes(captures, n)
  {
    if captures != [] {
      LaterPasses(captures, n);
      ArePasses(captures[1..], n + 1);
    }
  }

  /** Before pass `n` text and store hold no placeholders of later passes. */
  predicate AtPass(store: Store, text: Symbols, n: nat) {
    n <= CAPTURE_COUNT && Only(text, Seen(n)) && Limited(store)
  }

  lemma {:induction false} RunIsLimited(store: Store, text: Symbols, captures: seq<Capture>, n: nat)
    requires Passes(captures, n) && IsRun(store, text, captures) && AtPass(store, text, n)
    ensures Limited(StoreAfter(store, captures))
    decreases |captures|
  {
    if captures != [] {
      var c := captures[0];
      PassIsLimited(store, c, n);
      RunIsLimited(store.Push(c.kind, Stored(c.segments)), Output(c.kind, c.segments, |store.Of(c.kind)|), captures[1..], n + 1);
    }
  }

  lemma PassIsLimited(store: Store, c: Capture, n: nat)
    requires n < CAPTURE_COUNT && c.kind == CaptureKind(n) && Faithful(c.segments)
    requires AtPass(store, Input(c.segments), n)
    ensures AtPass(store.Push(c.kind, Stored(c.segments)), Output(c.kind, c.segments, |store.Of(c.kind)|), n + 1)
  {
    SegmentsOnly(c.kind, c.segments, |store.Of(c.kind)|, Seen(n));
    StoredIsEarlier(c, n);
    PushIsLimited(store, c);
  }

  lemma StoredIsEarlier(c: Capture, n: nat)
    requires n < CAPTURE_COUNT && c.kind == CaptureKind(n)
    requires forall j :: 0 <= j < |Stored(c.segments)| ==> Only(Stored(c.segments)[j], Seen(n))
    ensures forall j :: 0 <= j < |Stored(c.segments)| ==> Only(Stored(c.segments)[j], Earlier(c.kind))
  {
    SeenIsEarlier(n);
  }

  lemma PushIsLimited(store: Store, c: Capture)
    requires Limited(store) && forall j :: 0 <= j < |Stored(c.segments)| ==> Only(Stored(c.segments)[j], Earlier(c.kind))
    ensures Limited(store.Push(c.kind, Stored(c.segments)))
  {
    var next := store.Push(c.kind, Stored(c.segments));
    forall kind, id | 0 <= id < |next.Of(kind)| ensures Only(next.Of(kind)[id], Earlier(kind)) {
      if id >= |store.Of(kind)| {
        assert kind == c.kind;
        assert next.Of(kind)[id] == Stored(c.segments)[id - |store.Of(kind)|];
      } else {
        assert next.Of(kind)[id] == store.Of(kind)[id];
      }
    }
  }

  /** Redirections are hidden first, when the text has no placeholders yet. */
  lemma RedirectionsArePlain(command: Symbols, captures: seq<Capture>)
    requires RefFree(command) && InSourceOrder(captures) && AllFaithful(captures) && Input(captures[0].segments) == command
    ensures PlainRedirections(captures)
  {
    SegmentsOnly(Redirection, captures[0].segments, 0, {});
    forall i, j | 0 <= i < |captures| && captures[i].kind == Redirection && 0 <= j < |Stored(captures[i].segments)|
      ensures RefFree(Stored(captures[i].segments)[j])
    {
      assert i == 0;
      assert Only(Stored(captures[0].segments)[j], {});
    }
  }

  predicate Without(text: Symbols, kinds: set<Kind>) {
    forall i :: 0 <= i < |text| && text[i].Ref? ==> text[i].kind !in kinds
  }

  /**
   * No arithmetic or parameter expansion holds an arithmetic one, no variable holds an
   * arithmetic or parameter expansion or a variable, and no substitution's body holds
   * anything but redirections.
   */
  predicate Nests(store: Store) {
    && (forall id :: 0 <= id < |store.arithmetic| ==> Without(store.arithmetic[id], {Arithmetic}))
    && (forall id :: 0 <= id < |store.parameters| ==> Without(store.parameters[id], {Arithmetic}))
    && (forall id :: 0 <= id < |store.variables| ==> Without(store.variables[id], {Arithmetic, Parameter, Variable}))
    && (forall id :: 0 <= id < |store.subshells| ==> Only(store.subshells[id], {Redirection}))
  }

  /** The kinds that a fragment of this kind must not hold. */
  function Unfit(kind: Kind): set<Kind> {
    match kind
    case Arithmetic => {Arithmetic}
    case Parameter => {Arithmetic}
    case Variable => {Arithmetic, Parameter, Variable}
    case Subshell => {Quote, ArrayIndex, Arithmetic, Parameter, Variable, Subshell}
    case Quote => {}
    case ArrayIndex => {}
    case Redirection => {}
  }

  lemma RankedExactlyWhenFit(kind: Kind, text: Symbols)
    requires Only(text, Earlier(kind))
    ensures AllRanked(text, Rank(kind) + 1) <==> Without(text, Unfit(kind))
  {
    forall i | 0 <= i < |text| && text[i].Ref? ensures Rank(text[i].kind) >= Rank(kind) + 1 <==> text[i].kind !in Unfit(kind) {
      assert text[i].kind in Earlier(kind);
    }
  }

  predicate AllFit(store: Store) {
    forall kind, id :: 0 <= id < |store.Of(kind)| ==> Without(store.Of(kind)[id], Unfit(kind))
  }

  lemma OrderedExactlyWhenNests(store: Store)
    requires Limited(store)
    ensures Ordered(store) <==> Nests(store)
  {
    forall kind, id | 0 <= id < |store.Of(kind)|
      ensures AllRanked(store.Of(kind)[id], Rank(kind) + 1) <==> Without(store.Of(kind)[id], Unfit(kind))
    {
      RankedExactlyWhenFit(kind, store.Of(kind)[id]);
    }
    FitExactlyWhenNests(store);
  }

  lemma FitExactlyWhenNests(store: Store)
    ensures AllFit(store) <==> Nests(store)
  {
    if Nests(store) {
      forall kind, id | 0 <= id < |store.Of(kind)| ensures Without(store.Of(kind)[id], Unfit(kind)) {
        match kind
        case Arithmetic => assert Without(store.arithmetic[id], {Arithmetic});
        case Parameter => assert Without(store.parameters[id], {Arithmetic});
        case Variable => assert Without(store.variables[id], {Arithmetic, Parameter, Variable});
        case Subshell => assert Only(store.subshells[id], {Redirection});
        case _ =>
      }
    }
    if AllFit(store) {
      FitNests(store);
    }
  }

  lemma FitNests(store: Store)
    requires AllFit(store)
    ensures Nests(store)
  {
    forall id | 0 <= id < |store.arithmetic| ensures Without(store.arithmetic[id], {Arithmetic}) {
      assert store.Of(Arithmetic)[id] == store.arithmetic[id];
    }
    forall id | 0 <= id < |store.parameters| ensures Without(store.parameters[id], {Arithmetic}) {
      assert store.Of(Parameter)[id] == store.parameters[id];
    }
    forall id | 0 <= id < |store.variables| ensures Without(store.variables[id], {Arithmetic, Parameter, Variable}) {
      assert store.Of(Variable)[id] == store.variables[id];
    }
    forall id | 0 <= id < |store.subshells| ensures Only(store.subshells[id], {Redirection}) {
      assert store.Of(Subshell)[id] == store.subshells[id];
      var text := store.subshells[id];
      forall i | 0 <= i < |text| && text[i].Ref? ensures text[i].kind in {Redirection} {
        assert text[i].kind !in Unfit(Subshell);
        EveryKind(text[i].kind);
      }
    }
  }

  lemma EmptyIsLimited()
    ensures Limited(EMPTY)
  {
    forall kind: Kind ensures EMPTY.Of(kind) == [] {}
  }

  lemma RestorableExactlyWhenNests(command: Symbols, captures: seq<Capture>)
    requires RefFree(command) && InSourceOrder(captures) && IsRun(EMPTY, command, captures) && AllFaithful(captures)
    ensures var store, left := StoreAfter(EMPTY, captures), TextAfter(EMPTY, command, captures);
      Restorable(store, 0, left) <==> Nests(store)
  {
    EmptyIsLimited();
    ArePasses(captures, 0);
    RunIsLimited(EMPTY, command, captures, 0);
    RedirectionsArePlain(command, captures);
    RestorableExactlyWhenOrdered(command, captures);
    OrderedExactlyWhenNests(StoreAfter(EMPTY, captures));
  }

  /**
   * On the passes of the source, restoring the undivided line leaves no placeholder and
   * gives the complete expansion exactly when the stored fragments nest.
   */
  lemma SourceOrderExpandsExactlyWhen(command: Symbols, captures: seq<Capture>)
    requires RefFree(command) && InSourceOrder(captures) && IsRun(EMPTY, command, captures) && AllFaithful(captures)
    ensures var store, left := StoreAfter(EMPTY, captures), TextAfter(EMPTY, command, captures);
      IsExpansion(store, left, RunFrom(store, 0, left)) <==> Nests(store)
  {
    RestorableExactlyWhenNests(command, captures);
    PassesExpandCompletely(StoreAfter(EMPTY, captures), TextAfter(EMPTY, command, captures));
  }

  /** If each fragment is written back as it was matched, the undivided line comes back exactly then. */
  lemma SourceOrderRestoresExactlyWhen(command: Symbols, captures: seq<Capture>)
    requires RefFree(command) && InSourceOrder(captures) && IsRun(EMPTY, command, captures)
    requires forall c :: c in captures ==> c.Exact()
    ensures var store, left := StoreAfter(EMPTY, captures), TextAfter(EMPTY, command, captures);
      RunFrom(store, 0, left) == command <==> Nests(store)
  {
    forall i | 0 <= i < |captures| ensures Faithful(captures[i].segments) {
      assert captures[i] in captures;
      ExactIsFaithful(captures[i].kind, captures[i].segments);
    }
    RestorableExactlyWhenNests(command, captures);
    CaptureThenRestore(command, captures);
  }
}
