/**
 * How the stages of one line fit together (src/shared/parse-command.ts, lines
 * 202-210 and 262-272): the scanner that hides command substitutions is one of
 * the capturing passes, and the words it leaves are read back by the grouping loop.
 */
module Stages {
  import opened Text
  import Substitutions
  import TokenGrouping
  import opened Placeholders
  import LinePasses

  /** A scanned part as a segment of a capturing pass. */
  function SegmentOf(part: Substitutions.Part): Segment {
    match part
    case Char(c) => Keep(Ch(c))
    case Substitution(inner) => Span(Wrap(Subshell, Plain(inner)), Plain(Trim(inner)))
  }

  function SegmentsOf(parts: seq<Substitutions.Part>): (segments: seq<Segment>)
    ensures |segments| == |parts|
    ensures forall i :: 0 <= i < |parts| ==> segments[i] == SegmentOf(parts[i])
  {
    seq(|parts|, i requires 0 <= i < |parts| => SegmentOf(parts[i]))
  }

  /** A protected command as symbols: its references are substitution placeholders. */
  function SymbolsOf(pieces: seq<Substitutions.Piece>): (text: Symbols)
    ensures |text| == |pieces|
    ensures forall i :: 0 <= i < |pieces| ==> text[i] == SymbolOf(pieces[i])
  {
    seq(|pieces|, i requires 0 <= i < |pieces| => SymbolOf(pieces[i]))
  }

  function SymbolOf(piece: Substitutions.Piece): Symbol {
    match piece
    case Ch(c) => Symbol.Ch(c)
    case Ref(id) => Symbol.Ref(Subshell, id)
  }

  function AllPlain(texts: seq<string>): (plain: seq<Symbols>)
    ensures |plain| == |texts|
    ensures forall i :: 0 <= i < |texts| ==> plain[i] == Plain(texts[i])
  {
    seq(|texts|, i requires 0 <= i < |texts| => Plain(texts[i]))
  }

  lemma PlainAppend(a: string, b: string)
    ensures Plain(a + b) == Plain(a) + Plain(b)
  {
  }

  lemma WrapPlain(inner: string)
    ensures Wrap(Subshell, Plain(inner)) == Plain("$(" + inner + ")")
  {
    PlainAppend("$(" + inner, ")");
    PlainAppend("$(", inner);
  }

  /** On a text without earlier placeholders, scanning is a capturing pass for substitutions. */
  lemma ScanningIsAPass(command: string, first: nat)
    ensures var parts := Substitutions.AllParts(command);
      var segments := SegmentsOf(parts);
      && Input(segments) == Plain(command)
      && Output(Subshell, segments, first) == SymbolsOf(Substitutions.Numbered(parts, first))
      && Stored(segments) == AllPlain(Substitutions.Bodies(parts))
  {
    var parts := Substitutions.AllParts(command);
    Substitutions.ProtectionIsLossless(command, [], []);
    PartsArePass(parts, first);
  }

  lemma {:induction false} PartsArePass(parts: seq<Substitutions.Part>, first: nat)
    ensures Input(SegmentsOf(parts)) == Plain(Substitutions.Source(parts, false))
    ensures Output(Subshell, SegmentsOf(parts), first) == SymbolsOf(Substitutions.Numbered(parts, first))
    ensures Stored(SegmentsOf(parts)) == AllPlain(Substitutions.Bodies(parts))
  {
    if parts != [] {
      var rest := parts[1..];
      assert SegmentsOf(parts) == [SegmentOf(parts[0])] + SegmentsOf(rest);
      PartsArePass(rest, if parts[0].Char? then first else first + 1);
      FirstPart(parts[0], Substitutions.Source(rest, false));
      FirstSymbol(parts[0], first, Substitutions.Numbered(rest, if parts[0].Char? then first else first + 1));
      if parts[0].Substitution? {
        FirstBody(Trim(parts[0].inner), Substitutions.Bodies(rest));
      }
    }
  }

  lemma FirstPart(part: Substitutions.Part, rest: string)
    ensures Plain(Substitutions.PartSource(part, false) + rest)
         == (match SegmentOf(part) case Keep(s) => [s] case Span(matched, _) => matched) + Plain(rest)
  {
    PlainAppend(Substitutions.PartSource(part, false), rest);
    if part.Substitution? {
      WrapPlain(part.inner);
    }
  }

  lemma FirstSymbol(part: Substitutions.Part, first: nat, rest: seq<Substitutions.Piece>)
    ensures part.Char? ==> SymbolsOf([Substitutions.Ch(part.c)] + rest) == [Symbol.Ch(part.c)] + SymbolsOf(rest)
    ensures part.Substitution? ==> SymbolsOf([Substitutions.Ref(first)] + rest) == [Symbol.Ref(Subshell, first)] + SymbolsOf(rest)
  {
  }

  lemma FirstBody(body: string, rest: seq<string>)
    ensures AllPlain([body] + rest) == [Plain(body)] + AllPlain(rest)
  {
  }

  // ---------------------------------------------------------------- text that holds placeholders already

  /** A segment as the scanner sees it: placeholders of earlier passes are one character to it. */
  function Sketch(segment: Segment): Segment {
    match segment
    case Keep(s) => Keep(Symbol.Ch(LinePasses.Outline([s])[0]))
    case Span(matched, stored) => Span(Plain(LinePasses.Outline(matched)), Plain(LinePasses.Outline(stored)))
  }

  function Sketches(segments: seq<Segment>): (sketches: seq<Segment>)
    ensures |sketches| == |segments|
    ensures forall i :: 0 <= i < |segments| ==> sketches[i] == Sketch(segments[i])
  {
    seq(|segments|, i requires 0 <= i < |segments| => Sketch(segments[i]))
  }

  lemma {:induction false} TrimStartOutline(text: Symbols)
    ensures LinePasses.Outline(LinePasses.TrimStartOf(text)) == TrimStart(LinePasses.Outline(text))
  {
    if text != [] {
      TrimStartOutline(text[1..]);
      assert LinePasses.Outline(text[1..]) == LinePasses.Outline(text)[1..];
    }
  }

  lemma {:induction false} TrimEndOutline(text: Symbols)
    ensures LinePasses.Outline(LinePasses.TrimEndOf(text)) == TrimEnd(LinePasses.Outline(text))
  {
    if text != [] {
      TrimEndOutline(text[..|text| - 1]);
      assert LinePasses.Outline(text[..|text| - 1]) == LinePasses.Outline(text)[..|text| - 1];
    }
  }

  lemma TrimOutline(text: Symbols)
    ensures LinePasses.Outline(LinePasses.TrimOf(text)) == Trim(LinePasses.Outline(text))
  {
    TrimStartOutline(text);
    TrimEndOutline(LinePasses.TrimStartOf(text));
  }

  lemma SameEnd(s: string, i: nat)
    requires i < |s|
    ensures LinePasses.MatchEnd(7, s, i) == LinePasses.After(Substitutions.Ends(s)[i])
  {
    Substitutions.EndsAt(s, |s|, i);
    if Substitutions.OpensAt(s, i) {
      var e, end := LinePasses.EndFrom(s, i + 2, i + 2), Substitutions.EndOf(s, i + 2);
      if e.Some? && end.Some? { Substitutions.EndIsUnique(s, i + 2, e.value, end.value); }
      if end.Some? { assert Substitutions.IsEnd(s, i + 2, end.value); }
    }
  }

  lemma OutlineOfPart(text: Symbols, i: nat, e: nat)
    requires i <= e <= |text|
    ensures LinePasses.Outline(text[i..e]) == LinePasses.Outline(text)[i..e]
  {
  }

  lemma Inside<T>(t: seq<T>, i: nat, e: nat)
    requires i + 2 <= e < |t|
    ensures t[i..e + 1][2..|t[i..e + 1]| - 1] == t[i + 2..e]
  {
    var a, b := t[i..e + 1][2..|t[i..e + 1]| - 1], t[i + 2..e];
    assert |a| == |b| && forall k :: 0 <= k < |b| ==> a[k] == b[k];
  }

  lemma Delimited(s: string, i: nat, e: nat)
    requires Substitutions.Encloses(s, i, e)
    ensures s[i..e + 1] == "$(" + s[i + 2..e] + ")"
  {
  }

  lemma MatchedOutline(text: Symbols, i: nat, e: nat)
    requires Substitutions.Encloses(LinePasses.Outline(text), i, e)
    ensures Plain(LinePasses.Outline(text[i..e + 1])) == Wrap(Subshell, Plain(LinePasses.Outline(text)[i + 2..e]))
  {
    OutlineOfPart(text, i, e + 1);
    Delimited(LinePasses.Outline(text), i, e);
    WrapPlain(LinePasses.Outline(text)[i + 2..e]);
  }

  lemma StoredOutline(text: Symbols, i: nat, e: nat)
    requires i + 2 <= e < |text|
    ensures Plain(LinePasses.Outline(LinePasses.StoredFor(7, text[i..e + 1]))) == Plain(Trim(LinePasses.Outline(text)[i + 2..e]))
  {
    Inside(text, i, e);
    TrimOutline(text[i + 2..e]);
    OutlineOfPart(text, i + 2, e);
  }

  /** What the scanner would do at each place. */
  ghost function PartPlaces(s: string, ends: seq<Option<nat>>): (places: seq<Segment>)
    requires Substitutions.Bracketing(s, ends)
    ensures |places| == |s| && forall i :: 0 <= i < |s| ==> places[i] == SegmentOf(Substitutions.PartAt(s, ends, i))
  {
    seq(|s|, i requires 0 <= i < |s| => SegmentOf(Substitutions.PartAt(s, ends, i)))
  }

  lemma PartLength(s: string, ends: seq<Option<nat>>, i: nat)
    requires Substitutions.Bracketing(s, ends) && i < |s|
    ensures i + LinePasses.LengthOf(SegmentOf(Substitutions.PartAt(s, ends, i))) == Substitutions.AfterPart(s, ends, i)
  {
    if ends[i].Some? { assert Substitutions.Encloses(s, i, ends[i].value); }
  }

  lemma {:induction false} FollowParts(s: string, ends: seq<Option<nat>>, i: nat)
    requires Substitutions.Bracketing(s, ends) && LinePasses.Fit(PartPlaces(s, ends)) && i <= |s|
    ensures LinePasses.Follow(PartPlaces(s, ends), i) == SegmentsOf(Substitutions.Parts(s, ends, i))
    decreases |s| - i
  {
    if i < |s| {
      PartLength(s, ends, i);
      FollowParts(s, ends, Substitutions.AfterPart(s, ends, i));
      SegmentsCons(Substitutions.PartAt(s, ends, i), Substitutions.Parts(s, ends, Substitutions.AfterPart(s, ends, i)));
    }
  }

  lemma SegmentsCons(part: Substitutions.Part, parts: seq<Substitutions.Part>)
    ensures SegmentsOf([part] + parts) == [SegmentOf(part)] + SegmentsOf(parts)
  {
  }

  lemma {:induction false} FollowSketches(places: seq<Segment>, i: nat)
    requires LinePasses.Fit(places) && i <= |places|
    ensures LinePasses.Fit(Sketches(places))
    ensures Sketches(LinePasses.Follow(places, i)) == LinePasses.Follow(Sketches(places), i)
    decreases |places| - i
  {
    if i < |places| {
      var next := i + LinePasses.LengthOf(places[i]);
      FollowSketches(places, next);
      SketchesCons(places[i], LinePasses.Follow(places, next));
    }
  }

  lemma SketchesCons(first: Segment, rest: seq<Segment>)
    ensures Sketches([first] + rest) == [Sketch(first)] + Sketches(rest)
  {
  }

  /** The segment to `end` is, to the scanner, the part at `i`. */
  ghost predicate Agrees(text: Symbols, ends: seq<Option<nat>>, i: nat, end: Option<nat>)
    requires Substitutions.Bracketing(LinePasses.Outline(text), ends) && LinePasses.Within(7, text, i, end)
  {
    Sketch(LinePasses.SegmentTo(7, text, i, end)) == SegmentOf(Substitutions.PartAt(LinePasses.Outline(text), ends, i))
  }

  lemma EndIsWithin(text: Symbols, ends: seq<Option<nat>>, i: nat)
    requires Substitutions.Bracketing(LinePasses.Outline(text), ends) && i < |text|
    ensures LinePasses.Within(7, text, i, LinePasses.After(ends[i]))
    ensures ends[i].Some? ==> Substitutions.Encloses(LinePasses.Outline(text), i, ends[i].value)
  {
  }

  lemma SpanAgrees(text: Symbols, ends: seq<Option<nat>>, i: nat, e: nat)
    requires Substitutions.Bracketing(LinePasses.Outline(text), ends) && LinePasses.Within(7, text, i, Some(e + 1)) && ends[i] == Some(e)
    ensures Agrees(text, ends, i, Some(e + 1))
  {
    EndIsWithin(text, ends, i);
    MatchedOutline(text, i, e);
    StoredOutline(text, i, e);
  }

  lemma SymbolAgrees(text: Symbols, ends: seq<Option<nat>>, i: nat)
    requires Substitutions.Bracketing(LinePasses.Outline(text), ends) && LinePasses.Within(7, text, i, None) && ends[i] == None
    ensures Agrees(text, ends, i, None)
  {
    assert LinePasses.Outline([text[i]])[0] == LinePasses.Outline(text)[i];
  }

  lemma PlaceIsEnd(text: Symbols, i: nat) returns (end: Option<nat>)
    requires i < |text|
    ensures end == LinePasses.After(Substitutions.Ends(LinePasses.Outline(text))[i])
    ensures LinePasses.Within(7, text, i, end) && LinePasses.Places(7, text)[i] == LinePasses.SegmentTo(7, text, i, end)
  {
    end := LinePasses.MatchEnd(7, LinePasses.Outline(text), i);
    SameEnd(LinePasses.Outline(text), i);
    LinePasses.PlaceIs(7, text, i);
  }

  lemma PlaceAgrees(text: Symbols, ends: seq<Option<nat>>, i: nat)
    requires i < |text| && ends == Substitutions.Ends(LinePasses.Outline(text))
    requires Substitutions.Bracketing(LinePasses.Outline(text), ends)
    ensures Sketch(LinePasses.Places(7, text)[i]) == SegmentOf(Substitutions.PartAt(LinePasses.Outline(text), ends, i))
  {
    var end := PlaceIsEnd(text, i);
    EndAgrees(text, ends, i, end);
  }

  lemma EndAgrees(text: Symbols, ends: seq<Option<nat>>, i: nat, end: Option<nat>)
    requires i < |text| && Substitutions.Bracketing(LinePasses.Outline(text), ends)
    requires end == LinePasses.After(ends[i]) && LinePasses.Within(7, text, i, end)
    ensures Agrees(text, ends, i, end)
  {
    if ends[i].Some? { SpanAgrees(text, ends, i, ends[i].value); } else { SymbolAgrees(text, ends, i); }
  }

  /**
   * On any text, also one that holds placeholders, the pass for command substitutions
   * takes the parts that the scanner finds.
   */
  lemma PassSevenIsScanning(text: Symbols)
    ensures Sketches(LinePasses.Scan(7, text)) == SegmentsOf(Substitutions.AllParts(LinePasses.Outline(text)))
  {
    var s, places := LinePasses.Outline(text), LinePasses.Places(7, text);
    var ends := Substitutions.Ends(s);
    Substitutions.EndsBracket(s);
    FollowSketches(places, 0);
    forall i | 0 <= i < |s| ensures Sketches(places)[i] == PartPlaces(s, ends)[i] {
      PlaceAgrees(text, ends, i);
    }
    assert Sketches(places) == PartPlaces(s, ends);
    FollowParts(s, ends, 0);
  }

  /** A symbol as the source writes it, for substitution placeholders. */
  function WordOf(s: Symbol): string
    requires s.Ch? || s.kind == Subshell
  {
    match s
    case Ch(c) => [c]
    case Ref(_, id) => TokenGrouping.SubshellPlaceholder(id)
  }

  /** A word that is one placeholder is read as that body, and as a command of its own. */
  lemma PlaceholderStandsAlone(id: nat, subshells: seq<string>)
    ensures var word := TokenGrouping.Word(WordOf(Symbol.Ref(Subshell, id)));
      TokenGrouping.Commands(TokenGrouping.Groups([word]), subshells)
      == [if id < |subshells| then Some(subshells[id]) else None]
  {
    TokenGrouping.PlaceholderIsRead(id);
    var word := TokenGrouping.Word(WordOf(Symbol.Ref(Subshell, id)));
    TokenGrouping.SplitsAtSeparator([], word, []);
    assert [] + ([word] + []) == [word];
    TokenGrouping.OneRun([]);
  }
}
