/**
 * Which stored fragments a text reaches through its placeholders, and what they have to
 * do with restoring it (src/shared/parse-command.ts, lines 379-407).
 */
module Reachable {
  import opened Text
  import opened Placeholders
  import opened CaptureOrder

  predicate Stands(store: Store, s: Symbol) {
    s.Ref? && s.id < |store.Of(s.kind)|
  }

  function Held(store: Store, s: Symbol): Symbols
    requires Stands(store, s)
  {
    store.Of(s.kind)[s.id]
  }

  /** The placeholder is in the text, or in a fragment at most `n` placeholders away. */
  predicate ReachesIn(store: Store, n: nat, text: Symbols, s: Symbol) {
    exists i :: 0 <= i < |text| && (text[i] == s || (n > 0 && Stands(store, text[i]) && ReachesIn(store, n - 1, Held(store, text[i]), s)))
  }

  ghost predicate Reaches(store: Store, text: Symbols, s: Symbol) {
    exists n: nat :: ReachesIn(store, n, text, s)
  }

  predicate FragmentFits(store: Store, s: Symbol) {
    Stands(store, s) ==> Without(Held(store, s), Unfit(s.kind))
  }

  ghost predicate ReachesFit(store: Store, text: Symbols) {
    forall s: Symbol :: s.Ref? && Reaches(store, text, s) ==> FragmentFits(store, s)
  }

  /**
   * With fragments that hold earlier passes' placeholders only, a text is restored
   * completely exactly when all fragments that it reaches are fit for their kinds.
   */
  lemma RestorableExactlyWhenReachedFit(store: Store, text: Symbols)
    requires Limited(store)
    ensures Restorable(store, 0, text) <==> ReachesFit(store, text)
  {
    if Restorable(store, 0, text) {
      assert AllRestoredSomewhere(store, text);
      forall s: Symbol | s.Ref? && Reaches(store, text, s) ensures FragmentFits(store, s) {
        var n: nat :| ReachesIn(store, n, text, s);
        ReachedIsRestored(store, n, text, s);
        RestoredFits(store, s);
      }
    }
    if ReachesFit(store, text) {
      FitIsRestorable(store, 0, text);
    }
  }

  lemma HeldIsLimited(store: Store, s: Symbol)
    requires Limited(store) && Stands(store, s)
    ensures Only(Held(store, s), Earlier(s.kind))
    ensures s.kind == Redirection ==> RefFree(Held(store, s))
  {
  }

  lemma RestoredFits(store: Store, s: Symbol)
    requires Limited(store) && s.Ref? && RestoredSomewhere(store, s)
    ensures FragmentFits(store, s)
  {
    if Stands(store, s) {
      HeldIsLimited(store, s);
      var p :| 0 <= p <= PASS_COUNT && SymbolRestorable(store, p, s);
      RestoredIsRanked(store, p, s);
      RankedExactlyWhenFit(s.kind, Held(store, s));
    }
  }

  lemma {:induction false} ReachedIsRestored(store: Store, n: nat, text: Symbols, s: Symbol)
    requires Limited(store) && AllRestoredSomewhere(store, text) && ReachesIn(store, n, text, s) && s.Ref?
    ensures RestoredSomewhere(store, s)
    decreases n
  {
    var i :| 0 <= i < |text| && (text[i] == s || (n > 0 && Stands(store, text[i]) && ReachesIn(store, n - 1, Held(store, text[i]), s)));
    if text[i] != s {
      HeldIsRestored(store, text[i]);
      ReachedIsRestored(store, n - 1, Held(store, text[i]), s);
    }
  }

  lemma HeldIsRestored(store: Store, s: Symbol)
    requires Limited(store) && Stands(store, s) && RestoredSomewhere(store, s)
    ensures AllRestoredSomewhere(store, Held(store, s))
  {
    HeldIsLimited(store, s);
    var p :| 0 <= p <= PASS_COUNT && SymbolRestorable(store, p, s);
    RestoredIsRanked(store, p, s);
  }

  // ---- fit fragments are restorable

  lemma HeldReachesFit(store: Store, text: Symbols, i: nat)
    requires ReachesFit(store, text) && i < |text| && Stands(store, text[i])
    ensures FragmentFits(store, text[i]) && ReachesFit(store, Held(store, text[i]))
  {
    assert ReachesIn(store, 0, text, text[i]);
    forall s: Symbol | s.Ref? && Reaches(store, Held(store, text[i]), s) ensures FragmentFits(store, s) {
      var n: nat :| ReachesIn(store, n, Held(store, text[i]), s);
      assert ReachesIn(store, n + 1, text, s);
    }
  }

  lemma {:induction false} FitIsRestorable(store: Store, p: nat, text: Symbols)
    requires Limited(store) && p <= PASS_COUNT && AllRanked(text, p) && ReachesFit(store, text)
    ensures Restorable(store, p, text)
    decreases PASS_COUNT - p, 1
  {
    forall i | 0 <= i < |text| ensures SymbolRestorable(store, p, text[i]) {
      if text[i].Ref? {
        if Stands(store, text[i]) { HeldReachesFit(store, text, i); }
        FitSymbol(store, p, text[i]);
      }
    }
  }

  lemma {:induction false} FitSymbol(store: Store, p: nat, s: Symbol)
    requires Limited(store) && p <= PASS_COUNT && s.Ref? && Rank(s.kind) >= p
    requires Stands(store, s) ==> FragmentFits(store, s) && ReachesFit(store, Held(store, s))
    ensures SymbolRestorable(store, p, s)
    decreases PASS_COUNT - p, 0
  {
    if Pass(p) != s.kind {
      FitSymbol(store, p + 1, s);
    } else if Stands(store, s) {
      var inner := Held(store, s);
      HeldIsLimited(store, s);
      RankedExactlyWhenFit(s.kind, inner);
      FitIsRestorable(store, p + 1, inner);
      WrapRestorable(store, p + 1, s.kind, inner);
    } else {
      PlainRestorable(store, p + 1, Fragment(store, s.kind, s.id));
    }
  }

  lemma WrapRestorable(store: Store, p: nat, kind: Kind, text: Symbols)
    requires p <= PASS_COUNT && Restorable(store, p, text)
    ensures Restorable(store, p, Wrap(kind, text))
  {
    var wrapped := Wrap(kind, text);
    if kind == Subshell {
      forall i | 0 <= i < |wrapped| ensures SymbolRestorable(store, p, wrapped[i]) {
        if 2 <= i < 2 + |text| { assert wrapped[i] == text[i - 2]; }
      }
    }
  }

  lemma PlainRestorable(store: Store, p: nat, text: Symbols)
    requires p <= PASS_COUNT && RefFree(text)
    ensures Restorable(store, p, text)
  {
  }

  // ---------------------------------------------------------------- after a run every fragment is reached

  ghost predicate ReachesAll(store: Store, left: Symbols, text: Symbols) {
    forall i :: 0 <= i < |text| && text[i].Ref? ==> Reaches(store, left, text[i])
  }

  lemma ReachesAllAppend(store: Store, left: Symbols, a: Symbols, b: Symbols)
    ensures ReachesAll(store, left, a + b) <==> ReachesAll(store, left, a) && ReachesAll(store, left, b)
  {
    if ReachesAll(store, left, a + b) {
      forall i | 0 <= i < |a| && a[i].Ref? ensures Reaches(store, left, a[i]) {
        assert (a + b)[i] == a[i];
      }
      forall i | 0 <= i < |b| && b[i].Ref? ensures Reaches(store, left, b[i]) {
        assert (a + b)[|a| + i] == b[i];
      }
    }
  }

  lemma {:induction false} ReachesFurther(store: Store, n: nat, text: Symbols, via: Symbol, s: Symbol)
    requires ReachesIn(store, n, text, via) && Stands(store, via) && s in Held(store, via)
    ensures ReachesIn(store, n + 1, text, s)
    decreases n
  {
    var i :| 0 <= i < |text| && (text[i] == via || (n > 0 && Stands(store, text[i]) && ReachesIn(store, n - 1, Held(store, text[i]), via)));
    if text[i] == via {
      assert ReachesIn(store, n, Held(store, via), s);
    } else {
      ReachesFurther(store, n - 1, Held(store, text[i]), via, s);
    }
  }

  lemma HeldIsReached(store: Store, left: Symbols, via: Symbol)
    requires Reaches(store, left, via) && Stands(store, via)
    ensures ReachesAll(store, left, Held(store, via))
  {
    var n: nat :| ReachesIn(store, n, left, via);
    var held := Held(store, via);
    forall i | 0 <= i < |held| && held[i].Ref? ensures Reaches(store, left, held[i]) {
      ReachesFurther(store, n, left, via, held[i]);
    }
  }

  lemma MatchedIsReached(store: Store, left: Symbols, matched: Symbols, stored: Symbols)
    requires KeepsRefs(matched, stored) && ReachesAll(store, left, stored)
    ensures ReachesAll(store, left, matched)
  {
    forall i | 0 <= i < |matched| && matched[i].Ref? ensures Reaches(store, left, matched[i]) {
      var j :| 0 <= j < |stored| && stored[j] == matched[i];
    }
  }

  lemma {:induction false} SegmentsReached(store: Store, left: Symbols, kind: Kind, segments: seq<Segment>, first: nat)
    requires Holds(store, kind, segments, first) && Faithful(segments)
    requires ReachesAll(store, left, Output(kind, segments, first))
    ensures ReachesAll(store, left, Input(segments))
    ensures forall id :: first <= id < first + |Stored(segments)| ==> Reaches(store, left, Ref(kind, id))
    decreases |segments|
  {
    if segments != [] {
      var rest := segments[1..];
      match segments[0]
      case Keep(s) =>
        ReachesAllAppend(store, left, [s], Output(kind, rest, first));
        SegmentsReached(store, left, kind, rest, first);
        ReachesAllAppend(store, left, [s], Input(rest));
      case Span(matched, stored) =>
        ReachesAllAppend(store, left, [Ref(kind, first)], Output(kind, rest, first + 1));
        SegmentsReached(store, left, kind, rest, first + 1);
        assert [Ref(kind, first)][0] == Ref(kind, first);
        HeldIsReached(store, left, Ref(kind, first));
        MatchedIsReached(store, left, matched, stored);
        ReachesAllAppend(store, left, matched, Input(rest));
    }
  }

  ghost predicate ReachesSince(before: Store, end: Store, left: Symbols) {
    forall kind, id :: |before.Of(kind)| <= id < |end.Of(kind)| ==> Reaches(end, left, Ref(kind, id))
  }

  lemma StepReached(store: Store, c: Capture, end: Store, left: Symbols)
    requires var next := store.Push(c.kind, Stored(c.segments));
      && Extends(next, end) && ReachesSince(next, end, left)
      && ReachesAll(end, left, Output(c.kind, c.segments, |store.Of(c.kind)|))
    requires Faithful(c.segments)
    ensures ReachesAll(end, left, Input(c.segments)) && ReachesSince(store, end, left)
  {
    var next, first := store.Push(c.kind, Stored(c.segments)), |store.Of(c.kind)|;
    PushHolds(next, c.kind, store.Of(c.kind), c.segments);
    HoldsInBigger(next, end, c.kind, c.segments, first);
    SegmentsReached(end, left, c.kind, c.segments, first);
    forall kind, id | |store.Of(kind)| <= id < |end.Of(kind)| ensures Reaches(end, left, Ref(kind, id)) {
      if id < |next.Of(kind)| {
        assert kind == c.kind && first <= id < first + |Stored(c.segments)|;
      }
    }
  }

  /** Whatever was in the text on the way, and whatever was stored, is reached from what is left. */
  lemma {:induction false} RunIsReached(store: Store, text: Symbols, captures: seq<Capture>)
    requires IsRun(store, text, captures) && AllFaithful(captures)
    ensures var end, left := StoreAfter(store, captures), TextAfter(store, text, captures);
      ReachesAll(end, left, text) && ReachesSince(store, end, left)
    decreases |captures|
  {
    if captures == [] {
      forall i | 0 <= i < |text| ensures Reaches(store, text, text[i]) {
        assert ReachesIn(store, 0, text, text[i]);
      }
    } else {
      var c, rest := captures[0], captures[1..];
      var next, output := store.Push(c.kind, Stored(c.segments)), Output(c.kind, c.segments, |store.Of(c.kind)|);
      forall i | 0 <= i < |rest| ensures rest[i] == captures[i + 1] {}
      RunIsReached(next, output, rest);
      StoreGrows(next, rest);
      StepReached(store, c, StoreAfter(store, captures), TextAfter(store, text, captures));
    }
  }

  // ---------------------------------------------------------------- each placeholder has one place

  predicate Distinct(text: Symbols) {
    forall i, j :: 0 <= i < j < |text| && text[i].Ref? ==> text[i] != text[j]
  }

  predicate Apart(a: Symbols, b: Symbols) {
    forall i, j :: 0 <= i < |a| && 0 <= j < |b| && a[i].Ref? ==> a[i] != b[j]
  }

  lemma DistinctAppend(a: Symbols, b: Symbols)
    ensures Distinct(a + b) <==> Distinct(a) && Distinct(b) && Apart(a, b)
  {
    var ab := a + b;
    if Distinct(ab) {
      forall i, j | 0 <= i < j < |a| && a[i].Ref? ensures a[i] != a[j] {
        assert ab[i] == a[i] && ab[j] == a[j];
      }
      forall i, j | 0 <= i < j < |b| && b[i].Ref? ensures b[i] != b[j] {
        assert ab[|a| + i] == b[i] && ab[|a| + j] == b[j];
      }
      forall i, j | 0 <= i < |a| && 0 <= j < |b| && a[i].Ref? ensures a[i] != b[j] {
        assert ab[i] == a[i] && ab[|a| + j] == b[j];
      }
    }
  }

  /** No fragment in the list holds a placeholder of the text. */
  predicate AllApart(text: Symbols, fragments: seq<Symbols>) {
    forall j :: 0 <= j < |fragments| ==> Apart(text, fragments[j])
  }

  /** All placeholders of that kind have smaller numbers. */
  predicate Below(text: Symbols, kind: Kind, base: nat) {
    forall i :: 0 <= i < |text| && text[i].Ref? && text[i].kind == kind ==> text[i].id < base
  }

  /** Every placeholder of `a` is one of `b`, or one of that kind with a number from `first` on. */
  predicate From(a: Symbols, b: Symbols, kind: Kind, first: nat) {
    forall i :: 0 <= i < |a| && a[i].Ref? ==> a[i] in b || (a[i].kind == kind && a[i].id >= first)
  }

  lemma FromApart(a: Symbols, source: Symbols, b: Symbols, kind: Kind, first: nat)
    requires From(a, source, kind, first) && Apart(b, source) && Below(b, kind, first)
    ensures Apart(a, b) && Apart(b, a)
  {
  }

  /** A placeholder that is new where `source` was cut is in nothing that comes from there. */
  lemma FreshApart(a: Symbols, source: Symbols, kind: Kind, id: nat)
    requires From(a, source, kind, id + 1) && Below(source, kind, id)
    ensures Apart([Ref(kind, id)], a) && Apart(a, [Ref(kind, id)])
  {
  }

  lemma FromMore(a: Symbols, source: Symbols, more: Symbols, kind: Kind, first: nat, least: nat)
    requires From(a, source, kind, first) && least <= first
    ensures From(a, more + source, kind, least)
  {
  }

  lemma ApartAppend(a: Symbols, b: Symbols, c: Symbols)
    ensures Apart(a + b, c) <==> Apart(a, c) && Apart(b, c)
  {
    if Apart(a + b, c) {
      forall i, j | 0 <= i < |a| && 0 <= j < |c| && a[i].Ref? ensures a[i] != c[j] {
        assert (a + b)[i] == a[i];
      }
      forall i, j | 0 <= i < |b| && 0 <= j < |c| && b[i].Ref? ensures b[i] != c[j] {
        assert (a + b)[|a| + i] == b[i];
      }
    }
  }

  lemma BelowAppend(a: Symbols, b: Symbols, kind: Kind, base: nat)
    ensures Below(a + b, kind, base) <==> Below(a, kind, base) && Below(b, kind, base)
  {
    if Below(a + b, kind, base) {
      forall i | 0 <= i < |a| && a[i].Ref? && a[i].kind == kind ensures a[i].id < base {
        assert (a + b)[i] == a[i];
      }
      forall i | 0 <= i < |b| && b[i].Ref? && b[i].kind == kind ensures b[i].id < base {
        assert (a + b)[|a| + i] == b[i];
      }
    }
  }

  /** The fragments hold placeholders of the input only. */
  predicate AllFrom(fragments: seq<Symbols>, source: Symbols) {
    forall j :: 0 <= j < |fragments| ==> HeldBy(fragments[j], source)
  }

  predicate HeldBy(a: Symbols, source: Symbols) {
    forall i :: 0 <= i < |a| && a[i].Ref? ==> a[i] in source
  }

  lemma HeldByIsBelow(a: Symbols, source: Symbols, kind: Kind, base: nat)
    requires HeldBy(a, source) && Below(source, kind, base)
    ensures Below(a, kind, base) && From(a, source, kind, base)
  {
    forall i | 0 <= i < |a| && a[i].Ref? && a[i].kind == kind ensures a[i].id < base {
      var k :| 0 <= k < |source| && source[k] == a[i];
    }
  }

  lemma KeepStep(kind: Kind, s: Symbol, input: Symbols, output: Symbols, stored: seq<Symbols>, first: nat, base: nat)
    requires Distinct([s] + input) && Below([s] + input, kind, base) && base <= first
    requires From(output, input, kind, first) && Distinct(output) && AllApart(output, stored) && AllFrom(stored, input)
    ensures From([s] + output, [s] + input, kind, first) && Distinct([s] + output)
    ensures AllApart([s] + output, stored) && AllFrom(stored, [s] + input)
  {
    DistinctAppend([s], input);
    BelowAppend([s], input, kind, base);
    FromMore(output, input, [s], kind, first, first);
    FromApart(output, input, [s], kind, first);
    DistinctAppend([s], output);
    forall j | 0 <= j < |stored| ensures Apart([s] + output, stored[j]) {
      HeldByIsBelow(stored[j], input, kind, base);
      FromApart(stored[j], input, [s], kind, base);
      ApartAppend([s], output, stored[j]);
    }
  }

  lemma SpanStep(kind: Kind, matched: Symbols, kept: Symbols, input: Symbols, output: Symbols, stored: seq<Symbols>, first: nat, base: nat)
    requires Distinct(matched + input) && Below(matched + input, kind, base) && base <= first && KeepsRefs(matched, kept)
    requires From(output, input, kind, first + 1) && Distinct(output) && AllApart(output, stored) && AllFrom(stored, input)
    ensures From([Ref(kind, first)] + output, matched + input, kind, first) && Distinct([Ref(kind, first)] + output)
    ensures AllApart([Ref(kind, first)] + output, [kept] + stored) && AllFrom([kept] + stored, matched + input)
  {
    var ref := [Ref(kind, first)];
    DistinctAppend(matched, input);
    BelowAppend(matched, input, kind, base);
    FromMore(output, input, matched, kind, first + 1, first);
    FreshApart(output, input, kind, first);
    DistinctAppend(ref, output);
    KeptIsFrom(matched, kept, input, kind, base);
    FreshApart(kept, matched, kind, first);
    FromApart(output, input, kept, kind, first + 1);
    ApartAppend(ref, output, kept);
    forall j | 0 <= j < |stored| ensures Apart(ref + output, stored[j]) {
      HeldByIsBelow(stored[j], input, kind, base);
      FreshApart(stored[j], input, kind, first);
      ApartAppend(ref, output, stored[j]);
    }
  }

  lemma KeptIsFrom(matched: Symbols, kept: Symbols, input: Symbols, kind: Kind, base: nat)
    requires KeepsRefs(matched, kept) && Apart(matched, input) && Below(matched, kind, base)
    ensures HeldBy(kept, matched) && Below(kept, kind, base) && Apart(kept, input)
  {
    HeldByIsBelow(kept, matched, kind, base);
    forall i, j | 0 <= i < |kept| && 0 <= j < |input| && kept[i].Ref? ensures kept[i] != input[j] {
      var k :| 0 <= k < |matched| && matched[k] == kept[i];
    }
  }

  lemma {:induction false} PassKeepsApart(kind: Kind, segments: seq<Segment>, first: nat, base: nat)
    requires Faithful(segments) && Distinct(Input(segments)) && Below(Input(segments), kind, base) && base <= first
    ensures From(Output(kind, segments, first), Input(segments), kind, first)
    ensures Distinct(Output(kind, segments, first))
    ensures AllApart(Output(kind, segments, first), Stored(segments)) && AllFrom(Stored(segments), Input(segments))
    decreases |segments|
  {
    if segments != [] {
      var rest := segments[1..];
      match segments[0]
      case Keep(s) =>
        DistinctAppend([s], Input(rest));
        BelowAppend([s], Input(rest), kind, base);
        PassKeepsApart(kind, rest, first, base);
        KeepStep(kind, s, Input(rest), Output(kind, rest, first), Stored(rest), first, base);
      case Span(matched, stored) =>
        DistinctAppend(matched, Input(rest));
        BelowAppend(matched, Input(rest), kind, base);
        PassKeepsApart(kind, rest, first + 1, base);
        SpanStep(kind, matched, stored, Input(rest), Output(kind, rest, first + 1), Stored(rest), first, base);
    }
  }

  lemma {:induction false} OutputBelow(kind: Kind, segments: seq<Segment>, first: nat, base: nat)
    requires Below(Input(segments), kind, base) && base <= first
    ensures Below(Output(kind, segments, first), kind, first + |Stored(segments)|)
    decreases |segments|
  {
    if segments != [] {
      var rest := segments[1..];
      match segments[0]
      case Keep(s) =>
        BelowAppend([s], Input(rest), kind, base);
        OutputBelow(kind, rest, first, base);
        BelowAppend([s], Output(kind, rest, first), kind, first + |Stored(segments)|);
      case Span(matched, _) =>
        BelowAppend(matched, Input(rest), kind, base);
        OutputBelow(kind, rest, first + 1, base);
        BelowAppend([Ref(kind, first)], Output(kind, rest, first + 1), kind, first + |Stored(segments)|);
    }
  }

  /** All placeholders of the text name stored fragments. */
  predicate Known(store: Store, text: Symbols) {
    forall kind: Kind :: Below(text, kind, |store.Of(kind)|)
  }

  /** A placeholder of the text has no other place, neither in the text nor in a fragment. */
  predicate OnePlace(store: Store, text: Symbols) {
    && Distinct(text) && Known(store, text)
    && (forall kind: Kind :: AllApart(text, store.Of(kind)))
    && AllKnown(store, store)
  }

  lemma OutputIsKnown(store: Store, c: Capture)
    requires Faithful(c.segments) && Distinct(Input(c.segments)) && Known(store, Input(c.segments))
    ensures Known(store.Push(c.kind, Stored(c.segments)), Output(c.kind, c.segments, |store.Of(c.kind)|))
  {
    var next, input, first := store.Push(c.kind, Stored(c.segments)), Input(c.segments), |store.Of(c.kind)|;
    var output := Output(c.kind, c.segments, first);
    PassKeepsApart(c.kind, c.segments, first, first);
    OutputBelow(c.kind, c.segments, first, first);
    forall kind: Kind ensures Below(output, kind, |next.Of(kind)|) {
      if kind != c.kind { FromIsBelow(output, input, c.kind, first, kind, |store.Of(kind)|); }
    }
  }

  predicate AllKnown(store: Store, end: Store) {
    forall kind, id :: 0 <= id < |store.Of(kind)| ==> Known(end, store.Of(kind)[id])
  }

  lemma StoredIsKnown(store: Store, c: Capture)
    requires AllFrom(Stored(c.segments), Input(c.segments)) && Known(store, Input(c.segments)) && AllKnown(store, store)
    ensures var next := store.Push(c.kind, Stored(c.segments)); AllKnown(next, next)
  {
    var next, stored := store.Push(c.kind, Stored(c.segments)), Stored(c.segments);
    forall kind, id | 0 <= id < |next.Of(kind)| ensures Known(next, next.Of(kind)[id]) {
      if id < |store.Of(kind)| {
        assert next.Of(kind)[id] == store.Of(kind)[id];
        KnownInBigger(store, next, store.Of(kind)[id]);
      } else {
        assert next.Of(kind)[id] == stored[id - |store.Of(kind)|];
        HeldIsKnown(store, Input(c.segments), stored[id - |store.Of(kind)|]);
        KnownInBigger(store, next, next.Of(kind)[id]);
      }
    }
  }

  lemma FromIsBelow(a: Symbols, source: Symbols, kind: Kind, first: nat, other: Kind, base: nat)
    requires From(a, source, kind, first) && Below(source, other, base) && other != kind
    ensures Below(a, other, base)
  {
    forall i | 0 <= i < |a| && a[i].Ref? && a[i].kind == other ensures a[i].id < base {
      var k :| 0 <= k < |source| && source[k] == a[i];
    }
  }

  lemma KnownInBigger(store: Store, next: Store, text: Symbols)
    requires Known(store, text) && Extends(store, next)
    ensures Known(next, text)
  {
    forall kind: Kind ensures Below(text, kind, |next.Of(kind)|) {
      assert Below(text, kind, |store.Of(kind)|);
    }
  }

  lemma HeldIsKnown(store: Store, source: Symbols, a: Symbols)
    requires HeldBy(a, source) && Known(store, source)
    ensures Known(store, a)
  {
    forall kind: Kind ensures Below(a, kind, |store.Of(kind)|) {
      HeldByIsBelow(a, source, kind, |store.Of(kind)|);
    }
  }

  lemma StepKeepsOnePlace(store: Store, c: Capture)
    requires Faithful(c.segments) && OnePlace(store, Input(c.segments))
    ensures OnePlace(store.Push(c.kind, Stored(c.segments)), Output(c.kind, c.segments, |store.Of(c.kind)|))
  {
    var next, input, first := store.Push(c.kind, Stored(c.segments)), Input(c.segments), |store.Of(c.kind)|;
    var output := Output(c.kind, c.segments, first);
    PassKeepsApart(c.kind, c.segments, first, first);
    OutputIsKnown(store, c);
    StoredIsKnown(store, c);
    forall kind: Kind ensures AllApart(output, next.Of(kind)) {
      forall id | 0 <= id < |next.Of(kind)| ensures Apart(output, next.Of(kind)[id]) {
        if id < |store.Of(kind)| {
          var earlier := store.Of(kind)[id];
          assert next.Of(kind)[id] == earlier && Known(store, earlier) && AllApart(input, store.Of(kind));
          ApartSwaps(input, earlier);
          FromApart(output, input, earlier, c.kind, first);
        } else {
          assert next.Of(kind)[id] == Stored(c.segments)[id - first];
        }
      }
    }
  }

  lemma ApartSwaps(a: Symbols, b: Symbols)
    requires Apart(a, b)
    ensures Apart(b, a)
  {
  }

  /** Over a whole run, a placeholder that is left in the text is in no stored fragment, and in the text once. */
  lemma {:induction false} RunKeepsOnePlace(store: Store, text: Symbols, captures: seq<Capture>)
    requires IsRun(store, text, captures) && AllFaithful(captures) && OnePlace(store, text)
    ensures OnePlace(StoreAfter(store, captures), TextAfter(store, text, captures))
    decreases |captures|
  {
    if captures != [] {
      var c, rest := captures[0], captures[1..];
      forall i | 0 <= i < |rest| ensures rest[i] == captures[i + 1] {}
      StepKeepsOnePlace(store, c);
      RunKeepsOnePlace(store.Push(c.kind, Stored(c.segments)), Output(c.kind, c.segments, |store.Of(c.kind)|), rest);
    }
  }

  lemma PlainHasOnePlace(command: Symbols)
    requires RefFree(command)
    ensures OnePlace(EMPTY, command)
  {
    forall kind: Kind ensures EMPTY.Of(kind) == [] {}
  }
}
