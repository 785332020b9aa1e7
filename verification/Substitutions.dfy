/**
 * Balanced scanning of `$( ... )` and its replacement by numbered placeholders
 * (src/shared/parse-command.ts, lines 299-373).
 */
module Substitutions {
  import opened Text

  // ---------------------------------------------------------------- what the scanner sees

  /** What one character contributes to the nesting. */
  datatype Mark = Plain | Opens | Closes

  /** Lexical state before a character: after a backslash, inside a quote, or on the `(` of a `$(`. */
  datatype Lexical = Lexical(escaped: bool, quote: Option<char>, onParen: bool)

  const FRESH := Lexical(false, None, false)

  predicate IsQuote(c: char) {
    c == '"' || c == '\'' || c == '`'
  }

  predicate OpensAt(command: string, i: nat) {
    i + 1 < |command| && command[i] == '$' && command[i + 1] == '('
  }

  function MarkIn(state: Lexical, command: string, i: nat): Mark
    requires i < |command|
  {
    if state.onParen || state.escaped || state.quote.Some? then Plain
    else if OpensAt(command, i) then Opens
    else if command[i] == ')' then Closes
    else Plain
  }

  function Next(state: Lexical, command: string, i: nat): Lexical
    requires i < |command|
  {
    var c := command[i];
    if state.onParen || state.escaped then state.(onParen := false, escaped := false)
    else if c == '\\' then state.(escaped := true)
    else if state.quote.Some? then (if c == state.quote.value then FRESH else state)
    else if IsQuote(c) then state.(quote := Some(c))
    else if OpensAt(command, i) then state.(onParen := true)
    else state
  }

  /** The state before character `i` of a scan that begins at `start`. */
  function StateAt(command: string, start: nat, i: nat): Lexical
    requires start <= i <= |command|
    decreases i
  {
    if i == start then FRESH else Next(StateAt(command, start, i - 1), command, i - 1)
  }

  function MarkAt(command: string, start: nat, i: nat): Mark
    requires start <= i < |command|
  {
    MarkIn(StateAt(command, start, i), command, i)
  }

  /** Openings minus closings among the active characters in `[start, i)`, the `$(` before `start` included. */
  function Depth(command: string, start: nat, i: nat): int
    requires start <= i <= |command|
    decreases i
  {
    if i == start then 1
    else Depth(command, start, i - 1)
         + match MarkAt(command, start, i - 1) case Plain => 0 case Opens => 1 case Closes => -1
  }

  /** The closing parenthesis at which the openings are balanced for the first time. */
  predicate IsEnd(command: string, start: nat, e: nat) {
    start <= e < |command| && command[e] == ')' && MarkAt(command, start, e) == Closes
    && Depth(command, start, e + 1) == 0
    && forall i :: start <= i <= e ==> Depth(command, start, i) > 0
  }

  ghost predicate NeverEnds(command: string, start: nat) {
    forall e: nat :: !IsEnd(command, start, e)
  }

  lemma EndIsUnique(command: string, start: nat, a: nat, b: nat)
    requires IsEnd(command, start, a) && IsEnd(command, start, b)
    ensures a == b
  {
    assert Depth(command, start, a + 1) == 0 && Depth(command, start, b + 1) == 0;
  }

  // ---------------------------------------------------------------- the scanner

  /** The end, or -1 when the openings are never balanced. */
  method FindCommandSubstitutionEnd(command: string, startIndex: nat) returns (end: int)
    requires startIndex <= |command|
    ensures end >= 0 ==> IsEnd(command, startIndex, end)
    ensures end < 0 ==> end == -1 && NeverEnds(command, startIndex)
    ensures EndOf(command, startIndex) == if end < 0 then None else Some(end)
  {
    var depth := 1;
    var quote: Option<char> := None;
    var escaped := false;
    var index := startIndex;
    while index < |command|
      invariant startIndex <= index <= |command|
      invariant StateAt(command, startIndex, index) == Lexical(escaped, quote, false)
      invariant depth == Depth(command, startIndex, index)
      invariant forall i :: startIndex <= i <= index ==> Depth(command, startIndex, i) > 0
    {
      var ch := command[index];
      assert Depth(command, startIndex, index + 1) <= depth + 1;
      if escaped {
        escaped := false;
      } else if ch == '\\' {
        escaped := true;
      } else if quote.Some? {
        if ch == quote.value { quote := None; }
      } else if IsQuote(ch) {
        quote := Some(ch);
      } else if ch == '$' && index + 1 < |command| && command[index + 1] == '(' {
        assert StateAt(command, startIndex, index + 1).onParen;
        assert Depth(command, startIndex, index + 1) == depth + 1;
        depth := depth + 1;
        index := index + 1;
      } else if ch == ')' {
        depth := depth - 1;
        if depth == 0 {
          assert IsEnd(command, startIndex, index);
          EndIsUnique(command, startIndex, index, EndOf(command, startIndex).value);
          return index;
        }
      }
      index := index + 1;
    }
    forall e: nat ensures !IsEnd(command, startIndex, e) {
      if startIndex <= e < |command| { assert Depth(command, startIndex, e + 1) > 0; }
    }
    return -1;
  }

  // ---------------------------------------------------------------- protecting

  /** A command cut into plain characters and the bodies of its closed substitutions. */
  datatype Part = Char(c: char) | Substitution(inner: string)

  ghost function EndOf(command: string, start: nat): (e: Option<nat>)
    ensures e.Some? ==> IsEnd(command, start, e.value)
    ensures e.None? ==> NeverEnds(command, start)
  {
    if exists k: nat :: IsEnd(command, start, k) then
      var k: nat :| IsEnd(command, start, k); Some(k)
    else None
  }

  /** For each of the first `n` positions, where the substitution that opens there ends, if it does. */
  ghost function EndsUpTo(command: string, n: nat): (ends: seq<Option<nat>>)
    requires n <= |command|
    ensures |ends| == n
  {
    if n == 0 then []
    else EndsUpTo(command, n - 1) + [if OpensAt(command, n - 1) then EndOf(command, n + 1) else None]
  }

  ghost function Ends(command: string): (ends: seq<Option<nat>>)
    ensures |ends| == |command|
  {
    EndsUpTo(command, |command|)
  }

  lemma {:induction false} EndsAt(command: string, n: nat, i: nat)
    requires i < n <= |command|
    ensures EndsUpTo(command, n)[i] == if OpensAt(command, i) then EndOf(command, i + 2) else None
  {
    if i < n - 1 { EndsAt(command, n - 1, i); }
  }

  ghost predicate Bracketing(command: string, ends: seq<Option<nat>>) {
    |ends| == |command| && forall i :: 0 <= i < |ends| && ends[i].Some? ==> Encloses(command, i, ends[i].value)
  }

  predicate Encloses(command: string, i: nat, e: nat) {
    OpensAt(command, i) && i + 2 <= e < |command| && command[e] == ')'
  }

  lemma EndsBracket(command: string)
    ensures Bracketing(command, Ends(command))
  {
    forall i | 0 <= i < |command| && Ends(command)[i].Some? ensures Encloses(command, i, Ends(command)[i].value) {
      EndsAt(command, |command|, i);
    }
  }

  /** The scanner's answer is the recorded end. */
  lemma EndsAgree(command: string, i: nat, end: int)
    requires OpensAt(command, i)
    requires end >= 0 ==> IsEnd(command, i + 2, end)
    requires end < 0 ==> NeverEnds(command, i + 2)
    ensures Ends(command)[i] == if end < 0 then None else Some(end)
  {
    EndsAt(command, |command|, i);
    if end >= 0 { EndIsUnique(command, i + 2, end, EndOf(command, i + 2).value); }
  }

  lemma EndsNowhere(command: string, i: nat)
    requires i < |command| && !OpensAt(command, i)
    ensures Ends(command)[i] == None
  {
    EndsAt(command, |command|, i);
  }

  ghost function Parts(command: string, ends: seq<Option<nat>>, i: nat): seq<Part>
    requires Bracketing(command, ends) && i <= |command|
    decreases |command| - i
  {
    if i == |command| then []
    else [PartAt(command, ends, i)] + Parts(command, ends, AfterPart(command, ends, i))
  }

  ghost function PartAt(command: string, ends: seq<Option<nat>>, i: nat): (part: Part)
    requires Bracketing(command, ends) && i < |command|
    ensures part.Char? <==> ends[i].None?
  {
    assert ends[i].Some? ==> Encloses(command, i, ends[i].value);
    if ends[i].Some? then Substitution(command[i + 2..ends[i].value]) else Char(command[i])
  }

  ghost function AfterPart(command: string, ends: seq<Option<nat>>, i: nat): (next: nat)
    requires Bracketing(command, ends) && i < |command|
    ensures i < next <= |command|
  {
    assert ends[i].Some? ==> Encloses(command, i, ends[i].value);
    if ends[i].Some? then ends[i].value + 1 else i + 1
  }

  ghost function AllParts(command: string): seq<Part> {
    EndsBracket(command);
    Parts(command, Ends(command), 0)
  }

  /** The text of the parts, each body passed through `trimmed`. */
  function Source(parts: seq<Part>, trimmed: bool): string {
    if parts == [] then ""
    else PartSource(parts[0], trimmed) + Source(parts[1..], trimmed)
  }

  function PartSource(part: Part, trimmed: bool): string {
    match part
    case Char(c) => [c]
    case Substitution(inner) => "$(" + (if trimmed then Trim(inner) else inner) + ")"
  }

  /** A protected command: characters and references to stored bodies. */
  datatype Piece = Ch(c: char) | Ref(id: nat)

  function Bodies(parts: seq<Part>): seq<string> {
    if parts == [] then []
    else if parts[0].Substitution? then [Trim(parts[0].inner)] + Bodies(parts[1..])
    else Bodies(parts[1..])
  }

  /** References are numbered consecutively from `first`. */
  function Numbered(parts: seq<Part>, first: nat): seq<Piece> {
    if parts == [] then []
    else if parts[0].Substitution? then [Ref(first)] + Numbered(parts[1..], first + 1)
    else [Ch(parts[0].c)] + Numbered(parts[1..], first)
  }

  function Expand(pieces: seq<Piece>, subshells: seq<string>): string {
    if pieces == [] then ""
    else (match pieces[0]
          case Ch(c) => [c]
          case Ref(id) => if id < |subshells| then "$(" + subshells[id] + ")" else "$(undefined)")
         + Expand(pieces[1..], subshells)
  }

  /** The list of stored bodies that a parse fills by pushing. */
  class SubshellStore {
    var subshells: seq<string>

    constructor ()
      ensures subshells == []
    {
      subshells := [];
    }

    method Push(inner: string) returns (id: nat)
      modifies this
      ensures subshells == old(subshells) + [inner] && id == |old(subshells)|
    {
      subshells := subshells + [inner];
      id := |subshells| - 1;
    }
  }

  method ProtectCommandSubstitutions(command: string, store: SubshellStore) returns (result: seq<Piece>)
    modifies store
    ensures result == Numbered(AllParts(command), |old(store.subshells)|)
    ensures store.subshells == old(store.subshells) + Bodies(AllParts(command))
  {
    result := [];
    var index := 0;
    ghost var ends := Ends(command);
    EndsBracket(command);
    ghost var pieces := Numbered(AllParts(command), |store.subshells|);
    ghost var bodies := store.subshells + Bodies(AllParts(command));
    ScanBegins(command, store.subshells);
    while index < |command|
      invariant 0 <= index <= |command|
      invariant Scanned(command, ends, index, result, store.subshells, pieces, bodies)
    {
      if command[index] != '$' || !(index + 1 < |command| && command[index + 1] == '(') {
        EndsNowhere(command, index);
        NextIsChar(command, ends, index, result, store.subshells, pieces, bodies);
        result := result + [Ch(command[index])];
        index := index + 1;
        continue;
      }
      var end := FindCommandSubstitutionEnd(command, index + 2);
      EndsAgree(command, index, end);
      if end == -1 {
        NextIsChar(command, ends, index, result, store.subshells, pieces, bodies);
        result := result + [Ch(command[index])];
        index := index + 1;
        continue;
      }
      NextIsSubstitution(command, ends, index, end, result, store.subshells, pieces, bodies);
      var id := store.Push(Trim(command[index + 2..end]));
      result := result + [Ref(id)];
      index := end + 1;
    }
    ScanEnds(command, ends, result, store.subshells, pieces, bodies);
  }

  lemma ScanBegins(command: string, stored: seq<string>)
    ensures Bracketing(command, Ends(command))
    ensures Scanned(command, Ends(command), 0, [], stored, Numbered(AllParts(command), |stored|), stored + Bodies(AllParts(command)))
  {
    EndsBracket(command);
  }

  lemma ScanEnds(command: string, ends: seq<Option<nat>>, result: seq<Piece>, stored: seq<string>, pieces: seq<Piece>, bodies: seq<string>)
    requires Bracketing(command, ends) && Scanned(command, ends, |command|, result, stored, pieces, bodies)
    ensures result == pieces && stored == bodies
  {
    assert result + [] == result && stored + [] == stored;
  }

  /** What is done so far, followed by what the parts from `i` on will give, is the whole. */
  ghost predicate Scanned(command: string, ends: seq<Option<nat>>, i: nat, result: seq<Piece>, stored: seq<string>,
                          pieces: seq<Piece>, bodies: seq<string>)
    requires Bracketing(command, ends) && i <= |command|
  {
    pieces == result + Numbered(Parts(command, ends, i), |stored|) && bodies == stored + Bodies(Parts(command, ends, i))
  }

  lemma NextIsChar(command: string, ends: seq<Option<nat>>, i: nat, result: seq<Piece>, stored: seq<string>,
                   pieces: seq<Piece>, bodies: seq<string>)
    requires Bracketing(command, ends) && i < |command| && ends[i].None?
    requires Scanned(command, ends, i, result, stored, pieces, bodies)
    ensures Scanned(command, ends, i + 1, result + [Ch(command[i])], stored, pieces, bodies)
  {
    var rest := Parts(command, ends, i + 1);
    assert Parts(command, ends, i) == [Char(command[i])] + rest;
    NumberedCons(Char(command[i]), rest, |stored|);
    Associates(result, [Ch(command[i])], Numbered(rest, |stored|));
  }

  lemma NextIsSubstitution(command: string, ends: seq<Option<nat>>, i: nat, e: nat, result: seq<Piece>, stored: seq<string>,
                           pieces: seq<Piece>, bodies: seq<string>)
    requires Bracketing(command, ends) && i < |command| && ends[i] == Some(e)
    requires Scanned(command, ends, i, result, stored, pieces, bodies)
    ensures Encloses(command, i, e)
    ensures Scanned(command, ends, e + 1, result + [Ref(|stored|)], stored + [Trim(command[i + 2..e])], pieces, bodies)
  {
    assert Encloses(command, i, ends[i].value);
    var part, rest := Substitution(command[i + 2..e]), Parts(command, ends, e + 1);
    assert Parts(command, ends, i) == [part] + rest;
    NextBody(part, rest, result, stored, pieces, bodies);
  }

  lemma NextBody(part: Part, rest: seq<Part>, result: seq<Piece>, stored: seq<string>, pieces: seq<Piece>, bodies: seq<string>)
    requires part.Substitution?
    requires pieces == result + Numbered([part] + rest, |stored|) && bodies == stored + Bodies([part] + rest)
    ensures pieces == (result + [Ref(|stored|)]) + Numbered(rest, |stored| + 1)
    ensures bodies == (stored + [Trim(part.inner)]) + Bodies(rest)
  {
    NumberedCons(part, rest, |stored|);
    Associates(result, [Ref(|stored|)], Numbered(rest, |stored| + 1));
    Associates(stored, [Trim(part.inner)], Bodies(rest));
  }

  lemma NumberedCons(part: Part, rest: seq<Part>, first: nat)
    ensures part.Char? ==> Numbered([part] + rest, first) == [Ch(part.c)] + Numbered(rest, first) && Bodies([part] + rest) == Bodies(rest)
    ensures part.Substitution? ==>
      Numbered([part] + rest, first) == [Ref(first)] + Numbered(rest, first + 1)
      && Bodies([part] + rest) == [Trim(part.inner)] + Bodies(rest)
  {
    assert ([part] + rest)[1..] == rest;
  }

  // ---------------------------------------------------------------- nothing is lost, nothing is missed

  /** The parts are the command, character for character. */
  lemma {:induction false} PartsAreTheCommand(command: string, ends: seq<Option<nat>>, i: nat)
    requires Bracketing(command, ends) && i <= |command|
    ensures Source(Parts(command, ends, i), false) == command[i..]
    decreases |command| - i
  {
    if i < |command| {
      var next := AfterPart(command, ends, i);
      PartsAreTheCommand(command, ends, next);
      SourceCons(PartAt(command, ends, i), Parts(command, ends, next), false);
      PartIsCut(command, ends, i);
    }
  }

  lemma PartIsCut(command: string, ends: seq<Option<nat>>, i: nat)
    requires Bracketing(command, ends) && i < |command|
    ensures PartSource(PartAt(command, ends, i), false) + command[AfterPart(command, ends, i)..] == command[i..]
  {
    if ends[i].Some? {
      assert Encloses(command, i, ends[i].value);
      CutSubstitution(command, i, ends[i].value);
    }
  }

  lemma CutSubstitution(command: string, i: nat, e: nat)
    requires Encloses(command, i, e)
    ensures command[i..] == ("$(" + command[i + 2..e] + ")") + command[e + 1..]
  {
    assert command[i..i + 2] == "$(" && command[e..e + 1] == ")";
    assert command[i..] == command[i..i + 2] + command[i + 2..e] + command[e..e + 1] + command[e + 1..];
  }

  lemma SourceCons(part: Part, parts: seq<Part>, trimmed: bool)
    ensures Source([part] + parts, trimmed) == PartSource(part, trimmed) + Source(parts, trimmed)
  {
    assert ([part] + parts)[1..] == parts;
  }

  /** Expanding the references gives the parts back with their bodies trimmed. */
  lemma {:induction false} ExpandNumbered(parts: seq<Part>, before: seq<string>, after: seq<string>)
    ensures Expand(Numbered(parts, |before|), before + Bodies(parts) + after) == Source(parts, true)
  {
    if parts != [] {
      var rest := parts[1..];
      if parts[0].Substitution? {
        var body := Trim(parts[0].inner);
        BodyFirst(before, body, Bodies(rest), after);
        ExpandNumbered(rest, before + [body], after);
        ExpandFirst(Ref(|before|), Numbered(rest, |before| + 1), before + Bodies(parts) + after);
      } else {
        ExpandNumbered(rest, before, after);
        ExpandFirst(Ch(parts[0].c), Numbered(rest, |before|), before + Bodies(parts) + after);
      }
    }
  }

  lemma BodyFirst(before: seq<string>, body: string, bodies: seq<string>, after: seq<string>)
    ensures var store := before + ([body] + bodies) + after;
      |before| < |store| && store[|before|] == body && store == (before + [body]) + bodies + after
  {
  }

  lemma ExpandFirst(piece: Piece, pieces: seq<Piece>, subshells: seq<string>)
    ensures Expand([piece] + pieces, subshells) == Expand([piece], subshells) + Expand(pieces, subshells)
  {
    assert ([piece] + pieces)[1..] == pieces && [piece][1..] == [];
  }

  /** Protecting loses nothing but the blanks around a substitution's body. */
  lemma ProtectionIsLossless(command: string, before: seq<string>, after: seq<string>)
    ensures var parts := AllParts(command);
      && Source(parts, false) == command
      && Expand(Numbered(parts, |before|), before + Bodies(parts) + after) == Source(parts, true)
  {
    EndsBracket(command);
    PartsAreTheCommand(command, Ends(command), 0);
    ExpandNumbered(AllParts(command), before, after);
  }

  /** Every `$(` that stays in the text is one that is never closed. */
  lemma WhatStaysIsUnclosed(command: string, k: nat)
    requires k + 1 < |AllParts(command)| && AllParts(command)[k] == Char('$') && AllParts(command)[k + 1] == Char('(')
    ensures var at := |Source(AllParts(command)[..k], false)|;
      OpensAt(command, at) && NeverEnds(command, at + 2)
  {
    EndsBracket(command);
    var parts := AllParts(command);
    var at := |Source(parts[..k], false)|;
    SourceTo(command, k);
    CharsStayInPlace(command, Ends(command), 0, k);
    CharsStayInPlace(command, Ends(command), 0, k + 1);
    assert OpensAt(command, at);
    EndsAt(command, |command|, at);
  }

  lemma SourceTo(command: string, k: nat)
    requires k < |AllParts(command)| && AllParts(command)[k].Char?
    ensures var parts := AllParts(command);
      |Source(parts[..k + 1], false)| == |Source(parts[..k], false)| + 1
  {
    var parts := AllParts(command);
    assert parts[..k + 1] == parts[..k] + [parts[k]];
    SourceAppend(parts[..k], parts[k]);
  }

  lemma {:induction false} SourceAppend(parts: seq<Part>, part: Part)
    ensures Source(parts + [part], false) == Source(parts, false) + PartSource(part, false)
  {
    if parts == [] {
      assert parts + [part] == [part];
      SourceCons(part, [], false);
    } else {
      SourceAppend(parts[1..], part);
      assert (parts + [part])[1..] == parts[1..] + [part];
      Associates(PartSource(parts[0], false), Source(parts[1..], false), PartSource(part, false));
    }
  }

  /** Where part `k` of those from `i` on begins. */
  ghost function PlaceOf(command: string, ends: seq<Option<nat>>, i: nat, k: nat): nat
    requires Bracketing(command, ends) && i <= |command| && k <= |Parts(command, ends, i)|
  {
    i + |Source(Parts(command, ends, i)[..k], false)|
  }

  lemma LaterPlace(command: string, ends: seq<Option<nat>>, i: nat, k: nat)
    requires Bracketing(command, ends) && i <= |command| && 0 < k < |Parts(command, ends, i)|
    ensures i < |command|
    ensures var next := AfterPart(command, ends, i);
      && k - 1 < |Parts(command, ends, next)| && Parts(command, ends, i)[k] == Parts(command, ends, next)[k - 1]
      && PlaceOf(command, ends, i, k) == PlaceOf(command, ends, next, k - 1)
  {
    LaterPart(command, ends, i, k);
    PartLength(command, ends, i);
  }

  /** A plain part stands for the character at its own place, where no closed substitution begins. */
  lemma {:induction false} CharsStayInPlace(command: string, ends: seq<Option<nat>>, i: nat, k: nat)
    requires Bracketing(command, ends) && i <= |command|
    requires k < |Parts(command, ends, i)| && Parts(command, ends, i)[k].Char?
    ensures var at := PlaceOf(command, ends, i, k);
      at < |command| && ends[at].None? && Parts(command, ends, i)[k] == Char(command[at])
    decreases |command| - i
  {
    if k == 0 {
      FirstPlace(command, ends, i);
    } else {
      LaterPlace(command, ends, i, k);
      CharsStayInPlace(command, ends, AfterPart(command, ends, i), k - 1);
    }
  }

  lemma FirstPlace(command: string, ends: seq<Option<nat>>, i: nat)
    requires Bracketing(command, ends) && i < |command|
    ensures PlaceOf(command, ends, i, 0) == i && Parts(command, ends, i) != [] && Parts(command, ends, i)[0] == PartAt(command, ends, i)
  {
    assert Source(Parts(command, ends, i)[..0], false) == "";
  }

  lemma PartLength(command: string, ends: seq<Option<nat>>, i: nat)
    requires Bracketing(command, ends) && i < |command|
    ensures |PartSource(PartAt(command, ends, i), false)| == AfterPart(command, ends, i) - i
  {
    PartIsCut(command, ends, i);
  }

  lemma LaterPart(command: string, ends: seq<Option<nat>>, i: nat, k: nat)
    requires Bracketing(command, ends) && i <= |command| && 0 < k < |Parts(command, ends, i)|
    ensures i < |command|
    ensures var rest := Parts(command, ends, AfterPart(command, ends, i));
      k - 1 < |rest| && Parts(command, ends, i)[k] == rest[k - 1]
      && Source(Parts(command, ends, i)[..k], false) == PartSource(PartAt(command, ends, i), false) + Source(rest[..k - 1], false)
  {
    var first, rest := PartAt(command, ends, i), Parts(command, ends, AfterPart(command, ends, i));
    assert Parts(command, ends, i) == [first] + rest;
    assert ([first] + rest)[..k] == [first] + rest[..k - 1];
    SourceCons(first, rest[..k - 1], false);
  }
}
