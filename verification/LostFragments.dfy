/**
 * Families of lines on which a placeholder can stay in a command, and lines on which
 * none does (src/shared/parse-command.ts, lines 155-297).
 */
module LostFragments {
  import opened Text
  import Substitutions
  import TokenGrouping
  import opened Placeholders
  import opened CaptureOrder
  import opened LinePasses
  import opened Reachable
  import opened LineCommands

  // ---------------------------------------------------------------- passes that match nothing, or once

  predicate NoMatch(n: nat, s: string, i: nat)
    requires n < CAPTURE_COUNT && i < |s|
  {
    MatchEnd(n, s, i) == None
  }

  /** A pass that matches nothing. */
  function Kept(text: Symbols): (segments: seq<Segment>)
    ensures |segments| == |text|
    ensures forall i :: 0 <= i < |text| ==> segments[i] == Keep(text[i])
  {
    seq(|text|, i requires 0 <= i < |text| => Keep(text[i]))
  }

  lemma {:induction false} KeptIs(text: Symbols, kind: Kind, first: nat)
    ensures Output(kind, Kept(text), first) == text && Stored(Kept(text)) == []
  {
    if text != [] {
      assert Kept(text)[1..] == Kept(text[1..]);
      KeptIs(text[1..], kind, first);
      assert [text[0]] + text[1..] == text;
    }
  }

  lemma KeptFirst(text: Symbols, i: nat, e: nat)
    requires i < e <= |text|
    ensures Kept(text[i..e]) == [Keep(text[i])] + Kept(text[i + 1..e])
  {
  }

  lemma {:induction false} FollowKeeps(places: seq<Segment>, text: Symbols, i: nat, e: nat)
    requires Fit(places) && |places| == |text| && i <= e <= |text|
    requires forall k :: i <= k < e ==> places[k] == Keep(text[k])
    ensures Follow(places, i) == Kept(text[i..e]) + Follow(places, e)
    decreases e - i
  {
    if i < e {
      FollowKeeps(places, text, i + 1, e);
      KeptFirst(text, i, e);
      Associates([Keep(text[i])], Kept(text[i + 1..e]), Follow(places, e));
    } else {
      assert Kept(text[i..e]) == [];
    }
  }

  lemma PassKeeps(n: nat, line: Line)
    requires n < CAPTURE_COUNT && QuietAt(n, line.text)
    ensures NextLine(n, line) == line
  {
    var text, places := line.text, Places(n, line.text);
    forall i | 0 <= i < |text| ensures places[i] == Keep(text[i]) {
      assert NoMatch(n, Outline(text), i);
      PlaceIs(n, text, i);
    }
    FollowKeepsRest(places, text, 0);
    assert text[0..] == text;
    KeptIs(text, CaptureKind(n), |line.store.Of(CaptureKind(n))|);
    PushNothing(line.store, CaptureKind(n));
  }

  lemma PushNothing(store: Store, kind: Kind)
    ensures store.Push(kind, []) == store
  {
    assert store.Of(kind) + [] == store.Of(kind);
  }

  lemma {:induction false} KeptThen(a: Symbols, rest: seq<Segment>, kind: Kind, first: nat)
    ensures Output(kind, Kept(a) + rest, first) == a + Output(kind, rest, first)
    ensures Stored(Kept(a) + rest) == Stored(rest)
  {
    if a == [] {
      assert Kept(a) + rest == rest;
    } else {
      assert (Kept(a) + rest)[1..] == Kept(a[1..]) + rest;
      KeptThen(a[1..], rest, kind, first);
      assert [a[0]] + a[1..] == a;
      Associates([a[0]], a[1..], Output(kind, rest, first));
    }
  }

  /** One match, from `at` to `e`, and nothing before or behind it. */
  predicate TakesOne(n: nat, text: Symbols, at: nat, e: nat)
    requires n < CAPTURE_COUNT
  {
    && at < e <= |text| && MatchEnd(n, Outline(text), at) == Some(e)
    && (forall i :: 0 <= i < at ==> NoMatch(n, Outline(text), i))
    && (forall i :: e <= i < |text| ==> NoMatch(n, Outline(text), i))
  }

  lemma FollowKeepsRest(places: seq<Segment>, text: Symbols, e: nat)
    requires Fit(places) && |places| == |text| && e <= |text|
    requires forall i :: e <= i < |text| ==> places[i] == Keep(text[i])
    ensures Follow(places, e) == Kept(text[e..])
  {
    FollowKeeps(places, text, e, |text|);
    assert text[e..|text|] == text[e..];
    assert Kept(text[e..]) + [] == Kept(text[e..]);
  }

  lemma FollowKeepsFirst(places: seq<Segment>, text: Symbols, at: nat)
    requires Fit(places) && |places| == |text| && at <= |text|
    requires forall i :: 0 <= i < at ==> places[i] == Keep(text[i])
    ensures Follow(places, 0) == Kept(text[..at]) + Follow(places, at)
  {
    FollowKeeps(places, text, 0, at);
    assert text[0..at] == text[..at];
  }

  lemma FollowTakesOne(places: seq<Segment>, text: Symbols, at: nat, e: nat)
    requires Fit(places) && |places| == |text| && at < e <= |text| && LengthOf(places[at]) == e - at
    requires forall i :: 0 <= i < at ==> places[i] == Keep(text[i])
    requires forall i :: e <= i < |text| ==> places[i] == Keep(text[i])
    ensures Follow(places, 0) == Kept(text[..at]) + ([places[at]] + Kept(text[e..]))
  {
    FollowKeepsFirst(places, text, at);
    FollowKeepsRest(places, text, e);
  }

  lemma ScanTakesOne(n: nat, text: Symbols, at: nat, e: nat)
    requires n < CAPTURE_COUNT && TakesOne(n, text, at, e)
    ensures e - at > Width(n)
    ensures Scan(n, text) == Kept(text[..at]) + ([Span(text[at..e], StoredFor(n, text[at..e]))] + Kept(text[e..]))
  {
    var places := Places(n, text);
    forall i | 0 <= i < at || e <= i < |text| ensures places[i] == Keep(text[i]) {
      assert NoMatch(n, Outline(text), i);
      PlaceIs(n, text, i);
    }
    PlaceIs(n, text, at);
    assert places[at] == Span(text[at..e], StoredFor(n, text[at..e]));
    FollowTakesOne(places, text, at, e);
  }

  lemma PassTakesOne(n: nat, line: Line, a: Symbols, m: Symbols, z: Symbols)
    requires n < CAPTURE_COUNT && line.text == a + (m + z) && TakesOne(n, line.text, |a|, |a| + |m|)
    ensures |m| > Width(n)
    ensures var kind := CaptureKind(n);
      NextLine(n, line) == Line(line.store.Push(kind, [StoredFor(n, m)]), a + ([Ref(kind, |line.store.Of(kind)|)] + z))
  {
    var text, kind := line.text, CaptureKind(n);
    ScanTakesOne(n, text, |a|, |a| + |m|);
    assert text[..|a|] == a && text[|a|..|a| + |m|] == m && text[|a| + |m|..] == z;
    OneSpan(kind, a, Span(m, StoredFor(n, m)), z, |line.store.Of(kind)|);
  }

  lemma OneSpan(kind: Kind, a: Symbols, span: Segment, z: Symbols, first: nat)
    requires span.Span?
    ensures Output(kind, Kept(a) + ([span] + Kept(z)), first) == a + ([Ref(kind, first)] + z)
    ensures Stored(Kept(a) + ([span] + Kept(z))) == [span.stored]
  {
    KeptThen(a, [span] + Kept(z), kind, first);
    assert ([span] + Kept(z))[1..] == Kept(z);
    KeptIs(z, kind, first + 1);
  }

  predicate QuietAt(n: nat, text: Symbols)
    requires n < CAPTURE_COUNT
  {
    forall i :: 0 <= i < |text| ==> NoMatch(n, Outline(text), i)
  }

  /** The passes from `n` on, before pass `m`, match nothing in this text. */
  predicate Quiet(n: nat, m: nat, text: Symbols)
    requires m <= CAPTURE_COUNT
    decreases m - n
  {
    n >= m || (QuietAt(n, text) && Quiet(n + 1, m, text))
  }

  lemma {:induction false} QuietFor(n: nat, m: nat, text: Symbols, k: nat)
    requires n <= k < m <= CAPTURE_COUNT && Quiet(n, m, text)
    ensures QuietAt(k, text)
    decreases k - n
  {
    if n < k { QuietFor(n + 1, m, text, k); }
  }

  lemma {:induction false} AllQuiet(n: nat, m: nat, text: Symbols)
    requires m <= CAPTURE_COUNT && forall k, i :: n <= k < m && 0 <= i < |text| ==> NoMatch(k, Outline(text), i)
    ensures Quiet(n, m, text)
    decreases m - n
  {
    if n < m { AllQuiet(n + 1, m, text); }
  }

  /** Between the two passes the line stays as it is. */
  predicate Still(lines: seq<Line>, n: nat, m: nat, line: Line)
    requires n <= m < |lines|
  {
    lines[n] == line ==> lines[m] == line
  }

  /** Pass `n` makes one line of the other. */
  predicate Moves(lines: seq<Line>, n: nat, line: Line, next: Line)
    requires n + 1 < |lines|
  {
    lines[n] == line ==> lines[n + 1] == next
  }

  lemma {:induction false} ChainStays(lines: seq<Line>, n: nat, m: nat, line: Line)
    requires n <= m < |lines| && forall k :: n <= k < m ==> Moves(lines, k, line, line)
    ensures Still(lines, n, m, line)
    decreases m - n
  {
    if n < m {
      ChainStays(lines, n, m - 1, line);
      assert Moves(lines, m - 1, line, line);
    }
  }

  /** Names a pass at which the lines are looked at; without it a trace is only a list of lines. */
  predicate At(k: nat) {
    true
  }

  /** The lines before all passes, and after the last. */
  ghost predicate IsTrace(lines: seq<Line>, command: Symbols) {
    |lines| == CAPTURE_COUNT + 1
    && forall k: nat {:trigger At(k)} :: At(k) && k < |lines| ==> lines[k] == LineAt(command, k)
  }

  lemma TraceOf(command: Symbols) returns (lines: seq<Line>)
    ensures IsTrace(lines, command)
  {
    lines := Lines(command);
  }

  lemma QuietStep(command: Symbols, lines: seq<Line>, n: nat, line: Line)
    requires IsTrace(lines, command) && n < CAPTURE_COUNT && QuietAt(n, line.text)
    ensures Moves(lines, n, line, line)
  {
    assert At(n) && At(n + 1);
    PassKeeps(n, line);
    LineStep(command, n);
  }

  lemma QuietIsStill(command: Symbols, lines: seq<Line>, n: nat, m: nat, line: Line)
    requires IsTrace(lines, command) && n <= m <= CAPTURE_COUNT && Quiet(n, m, line.text)
    ensures Still(lines, n, m, line)
  {
    forall k | n <= k < m ensures Moves(lines, k, line, line) {
      QuietFor(n, m, line.text, k);
      QuietStep(command, lines, k, line);
    }
    ChainStays(lines, n, m, line);
  }

  lemma TakesOneMoves(command: Symbols, lines: seq<Line>, n: nat, line: Line, a: Symbols, m: Symbols, z: Symbols, stored: Symbols, next: Line)
    requires IsTrace(lines, command) && n < CAPTURE_COUNT
    requires line.text == a + (m + z) && TakesOne(n, line.text, |a|, |a| + |m|)
    requires |m| > Width(n) ==> StoredFor(n, m) == stored
    requires var kind := CaptureKind(n);
      next == Line(line.store.Push(kind, [stored]), a + ([Ref(kind, |line.store.Of(kind)|)] + z))
    ensures Moves(lines, n, line, next)
  {
    assert At(n) && At(n + 1);
    PassTakesOne(n, line, a, m, z);
    LineStep(command, n);
  }

  /** Two passes take something, the others nothing. */
  lemma TwoMoves(lines: seq<Line>, i: nat, j: nat, e: nat, line: Line, one: Line, two: Line)
    requires i < j < e < |lines| && lines[0] == line
    requires Still(lines, 0, i, line) && Moves(lines, i, line, one)
    requires Still(lines, i + 1, j, one) && Moves(lines, j, one, two)
    requires Still(lines, j + 1, e, two)
    ensures lines[e] == two
  {
  }

  lemma TraceBegins(command: Symbols, lines: seq<Line>)
    requires IsTrace(lines, command)
    ensures lines[0] == Line(EMPTY, command)
  {
    assert At(0);
  }

  lemma TwoCaptures(command: Symbols, lines: seq<Line>, i: nat, j: nat, e: nat, line: Line, one: Line, two: Line)
    requires IsTrace(lines, command) && i < j < e <= CAPTURE_COUNT && line == Line(EMPTY, command)
    requires Quiet(0, i, line.text) && Moves(lines, i, line, one)
    requires Quiet(i + 1, j, one.text) && Moves(lines, j, one, two)
    requires Quiet(j + 1, e, two.text)
    ensures lines[e] == two
  {
    QuietIsStill(command, lines, 0, i, line);
    QuietIsStill(command, lines, i + 1, j, one);
    QuietIsStill(command, lines, j + 1, e, two);
    TraceBegins(command, lines);
    TwoMoves(lines, i, j, e, line, one, two);
  }

  lemma TraceEnds(command: Symbols, lines: seq<Line>, line: Line)
    requires IsTrace(lines, command) && lines[CAPTURE_COUNT] == line
    ensures Captured(command) == line
  {
    assert At(CAPTURE_COUNT);
  }

  // ---------------------------------------------------------------- where a match can begin

  /** A character that begins no match and closes nothing. */
  predicate Calm(c: char) {
    c !in "$<>`\"'\\()[]{}"
  }

  predicate IsCalm(s: string) {
    forall i :: 0 <= i < |s| ==> Calm(s[i])
  }

  predicate Begins(c: char) {
    c in "$<`\""
  }

  /** Without ">" matches begin at a few characters only. */
  lemma MatchBegins(n: nat, s: string, i: nat)
    requires n < CAPTURE_COUNT && i < |s| && Lacks(s, 0, |s|, '>')
    ensures MatchEnd(n, s, i).Some? ==> Begins(s[i]) && n > 0
  {
  }

  /** What must follow a dollar sign where a pass other than the scanner's matches. */
  lemma DollarThen(n: nat, s: string, i: nat)
    requires n < CAPTURE_COUNT && i < |s| && s[i] == '$' && MatchEnd(n, s, i).Some? && n != 7
    ensures n in {1, 2, 3, 5, 6} && i + 1 < |s|
    ensures n == 1 ==> i + 2 < |s| && s[i + 1] == s[i + 2] == '('
    ensures n == 2 ==> s[i + 1] == '['
    ensures n == 3 ==> s[i + 1] == '{'
    ensures n == 5 ==> IsLetter(s[i + 1])
    ensures n == 6 ==> IsSpecial(s[i + 1])
  {
  }

  /** Only characters of `begins` begin a match here. */
  lemma QuietWithoutBegins(n: nat, m: nat, text: Symbols)
    requires m <= CAPTURE_COUNT
    requires forall i :: 0 <= i < |text| && text[i].Ch? ==> text[i].c != '>' && !Begins(text[i].c)
    ensures Quiet(n, m, text)
  {
    var s := Outline(text);
    forall k, i | n <= k < m && 0 <= i < |text| ensures NoMatch(k, s, i) {
      MatchBegins(k, s, i);
    }
    AllQuiet(n, m, text);
  }

  lemma StaysToTheEnd(command: Symbols, e: nat, line: Line)
    requires e == CAPTURE_COUNT && line == Line(EMPTY, command) && Quiet(0, e, command)
    ensures Captured(command) == line
  {
    var lines := TraceOf(command);
    QuietIsStill(command, lines, 0, e, line);
    TraceBegins(command, lines);
    TraceEnds(command, lines, line);
  }

  /** Unless such a character occurs, the passes leave a line as it is. */
  lemma LineWithoutPatternsStays(command: string)
    requires forall i :: 0 <= i < |command| ==> command[i] != '>' && !Begins(command[i])
    ensures Captured(Plain(command)) == Line(EMPTY, Plain(command))
  {
    QuietWithoutBegins(0, CAPTURE_COUNT, Plain(command));
    StaysToTheEnd(Plain(command), CAPTURE_COUNT, Line(EMPTY, Plain(command)));
  }

  /** Nothing else begins a match. */
  predicate OnlyDollars(s: string, p: nat, q: nat) {
    && p < q < |s| && s[p] == s[q] == '$'
    && forall i :: 0 <= i < |s| && i != p && i != q ==> s[i] != '>' && !Begins(s[i])
  }

  predicate NoneBegins(s: string) {
    forall i :: 0 <= i < |s| ==> s[i] != '>' && !Begins(s[i])
  }

  lemma TwoDollars(a: string, b: string, c: string)
    requires NoneBegins(a) && NoneBegins(b) && NoneBegins(c)
    ensures OnlyDollars(a + ("$" + (b + ("$" + c))), |a|, |a| + 1 + |b|)
    ensures var s := a + ("$" + (b + ("$" + c)));
      (b != "" ==> s[|a| + 1] == b[0]) && (|b| > 1 ==> s[|a| + 2] == b[1]) && (|b| == 1 ==> s[|a| + 2] == '$')
      && (c != "" ==> s[|a| + 1 + |b| + 1] == c[0])
  {
  }

  // ---------------------------------------------------------------- a variable inside a substitution

  predicate IsName(v: string) {
    v != "" && IsLetter(v[0]) && All(v, 0, |v|, IsWordChar)
  }

  predicate EndsName(s: string) {
    s == "" || !IsWordChar(s[0])
  }

  /** A calm text with a variable inside a substitution: `a$(b$vc)z`. */
  datatype VariableInside = VariableInside(a: string, b: string, v: string, c: string, z: string)
  {
    predicate Valid() {
      IsCalm(a) && IsCalm(b) && IsName(v) && IsCalm(c) && EndsName(c) && IsCalm(z)
    }

    function Command(): string {
      a + ("$" + (("(" + b) + ("$" + (v + (c + ")" + z)))))
    }

    function Hidden(): string {
      a + ("$" + ("(" + (b + ("_" + (c + ")" + z)))))
    }

    function At(): nat {
      |a| + 2 + |b|
    }

    function Before(): Symbols {
      Plain(a + ("$(" + b))
    }

    function Name(): Symbols {
      Plain("$" + v)
    }

    function After(): Symbols {
      Plain(c + ")" + z)
    }

    function Inner(): Symbols {
      Plain(b) + ([Ref(Variable, 0)] + Plain(c))
    }

    /** The line with the variable hidden. */
    function VariableLine(): Line {
      Line(EMPTY.Push(Variable, [Name()]), Before() + ([Ref(Variable, 0)] + After()))
    }

    /** The line with the substitution hidden, too. */
    function SubstitutionLine(): Line {
      Line(VariableLine().store.Push(Subshell, [TrimOf(Inner())]), Plain(a) + ([Ref(Subshell, 0)] + Plain(z)))
    }
  }

  lemma NameIsCalm(v: string)
    requires IsName(v)
    ensures IsCalm(v) && forall i :: 0 <= i < |v| ==> v[i] != '>'
  {
  }

  /** The two dollar signs, and what follows them. */
  lemma CommandHas(g: VariableInside)
    requires g.Valid()
    ensures var s := g.Command();
      && OnlyDollars(s, |g.a|, g.At())
      && s[|g.a| + 1] == '(' && s[|g.a| + 2] != '(' && s[g.At() + 1] == g.v[0]
  {
    var two, three := "(" + g.b, g.v + (g.c + ")" + g.z);
    NameIsCalm(g.v);
    TwoDollars(g.a, two, three);
    assert g.b != "" ==> two[1] == g.b[0];
    assert three[0] == g.v[0];
  }

  lemma QuietBeforeVariable(g: VariableInside)
    requires g.Valid()
    ensures Quiet(0, 5, Plain(g.Command()))
  {
    var s := g.Command();
    CommandHas(g);
    assert Outline(Plain(s)) == s;
    forall k, i | 0 <= k < 5 && 0 <= i < |s| ensures NoMatch(k, s, i) {
      MatchBegins(k, s, i);
      if MatchEnd(k, s, i).Some? { DollarThen(k, s, i); }
    }
    AllQuiet(0, 5, Plain(s));
  }

  lemma NameEnds(s: string, at: nat, v: string, rest: string)
    requires at + 1 <= |s| && s[at + 1..] == v + rest && IsName(v) && EndsName(rest) && s[at] == '$'
    ensures at + 1 < |s| && MatchEnd(5, s, at) == Some(at + 1 + |v|)
  {
    var e := at + 1 + |v|;
    assert forall k :: at + 1 <= k < e ==> s[k] == s[at + 1..][k - at - 1] == v[k - at - 1];
    StretchIsLongest(s, at + 1, IsWordChar, e);
    assert rest != "" ==> s[e] == s[at + 1..][|v|] == rest[0];
  }

  lemma AfterDollar(g: VariableInside)
    requires g.Valid()
    ensures var s, at := g.Command(), g.At();
      at + 1 < |s| && s[at + 1..] == g.v + (g.c + ")" + g.z) && s[at] == '$'
  {
  }

  lemma OneNameBegins(s: string, p: nat, at: nat)
    requires OnlyDollars(s, p, at) && !IsLetter(s[p + 1])
    ensures forall i :: 0 <= i < |s| && i != at ==> NoMatch(5, s, i)
  {
    forall i | 0 <= i < |s| && i != at ensures NoMatch(5, s, i) {
      MatchBegins(5, s, i);
    }
  }

  lemma VariableMatches(g: VariableInside)
    requires g.Valid()
    ensures g.At() < |g.Command()| && MatchEnd(5, g.Command(), g.At()) == Some(g.At() + 1 + |g.v|)
  {
    AfterDollar(g);
    NameEnds(g.Command(), g.At(), g.v, g.c + ")" + g.z);
  }

  lemma VariableIsTaken(g: VariableInside)
    requires g.Valid()
    ensures TakesOne(5, Plain(g.Command()), g.At(), g.At() + 1 + |g.v|)
  {
    VariableMatches(g);
    CommandHas(g);
    OneNameBegins(g.Command(), |g.a|, g.At());
    assert Outline(Plain(g.Command())) == g.Command();
  }

  lemma VariableInLine(g: VariableInside)
    ensures Plain(g.Command()) == g.Before() + (g.Name() + g.After()) && |g.Before()| == g.At() && |g.Name()| == 1 + |g.v|
  {
  }

  lemma VariableLineIs(g: VariableInside, lines: seq<Line>, n: nat)
    requires g.Valid() && n == 5 && IsTrace(lines, Plain(g.Command()))
    ensures Moves(lines, n, Line(EMPTY, Plain(g.Command())), g.VariableLine())
  {
    VariableIsTaken(g);
    VariableInLine(g);
    TakesOneMoves(Plain(g.Command()), lines, n, Line(EMPTY, Plain(g.Command())), g.Before(), g.Name(), g.After(), g.Name(), g.VariableLine());
  }

  /** Where nothing opens, closes, quotes or escapes, a substitution's body ends at the next parenthesis. */
  lemma BodyEnds(s: string, start: nat, e: nat)
    requires start <= e < |s| && s[e] == ')' && forall i :: start <= i < e ==> Calm(s[i])
    ensures EndFrom(s, start, start) == Some(e)
  {
    forall i | start <= i <= e ensures Substitutions.StateAt(s, start, i) == Substitutions.FRESH && Substitutions.Depth(s, start, i) == 1 {
      BodyIsFlat(s, start, i);
    }
    assert Substitutions.MarkAt(s, start, e) == Substitutions.Closes;
    assert Substitutions.IsEnd(s, start, e);
    Substitutions.EndIsUnique(s, start, e, EndFrom(s, start, start).value);
  }

  lemma {:induction false} BodyIsFlat(s: string, start: nat, i: nat)
    requires start <= i < |s| && forall k :: start <= k < i ==> Calm(s[k])
    ensures Substitutions.StateAt(s, start, i) == Substitutions.FRESH && Substitutions.Depth(s, start, i) == 1
    decreases i
  {
    if start < i { BodyIsFlat(s, start, i - 1); }
  }

  lemma HiddenIs(g: VariableInside)
    requires g.Valid()
    ensures Outline(g.VariableLine().text) == g.Hidden()
  {
  }

  /** One dollar sign, and nothing else that begins a match. */
  predicate OnlyDollar(s: string, p: nat) {
    p + 1 < |s| && s[p] == '$' && forall i :: 0 <= i < |s| && i != p ==> s[i] != '>' && !Begins(s[i])
  }

  lemma NothingBesideDollar(n: nat, s: string, p: nat)
    requires n < CAPTURE_COUNT && OnlyDollar(s, p)
    ensures forall i :: 0 <= i < |s| && i != p ==> NoMatch(n, s, i)
  {
    forall i | 0 <= i < |s| && i != p ensures NoMatch(n, s, i) {
      MatchBegins(n, s, i);
    }
  }

  /** Something else follows the dollar sign than what the pass looks for. */
  lemma QuietAtDollar(n: nat, text: Symbols, p: nat)
    requires n < CAPTURE_COUNT && OnlyDollar(Outline(text), p) && NoMatch(n, Outline(text), p)
    ensures QuietAt(n, text)
  {
    NothingBesideDollar(n, Outline(text), p);
  }

  lemma HiddenHas(g: VariableInside)
    requires g.Valid()
    ensures OnlyDollar(g.Hidden(), |g.a|) && g.Hidden()[|g.a| + 1] == '('
  {
    var rest := "(" + (g.b + ("_" + (g.c + ")" + g.z)));
    assert NoneBegins(g.c + ")" + g.z);
    assert NoneBegins(rest) && rest[0] == '(';
    OneDollar(g.a, rest);
  }

  lemma OneDollar(a: string, b: string)
    requires NoneBegins(a) && NoneBegins(b) && b != ""
    ensures OnlyDollar(a + ("$" + b), |a|) && (a + ("$" + b))[|a| + 1] == b[0]
  {
  }

  lemma BodyIsCalm(g: VariableInside)
    requires g.Valid()
    ensures var s, at, e := g.Hidden(), |g.a|, |g.a| + 2 + |g.b| + 1 + |g.c|;
      at + 2 <= e < |s| && Pair(s, at, '$', '(') && s[e] == ')' && forall i :: at + 2 <= i < e ==> Calm(s[i])
  {
  }

  lemma BodyTaken(text: Symbols, at: nat, e: nat)
    requires var s := Outline(text);
      OnlyDollar(s, at) && at + 2 <= e < |s| && Pair(s, at, '$', '(') && s[e] == ')' && forall i :: at + 2 <= i < e ==> Calm(s[i])
    ensures TakesOne(7, text, at, e + 1)
  {
    BodyEnds(Outline(text), at + 2, e);
    NothingBesideDollar(7, Outline(text), at);
  }

  lemma BodyIsTaken(g: VariableInside)
    requires g.Valid()
    ensures TakesOne(7, g.VariableLine().text, |g.a|, |g.a| + 2 + |g.b| + 1 + |g.c| + 1)
  {
    HiddenIs(g);
    HiddenHas(g);
    BodyIsCalm(g);
    BodyTaken(g.VariableLine().text, |g.a|, |g.a| + 2 + |g.b| + 1 + |g.c|);
  }

  lemma SubstitutionLineIs(g: VariableInside, lines: seq<Line>, n: nat)
    requires g.Valid() && n == 7 && IsTrace(lines, Plain(g.Command()))
    ensures Moves(lines, n, g.VariableLine(), g.SubstitutionLine())
  {
    BodyIsTaken(g);
    BodyInLine(g);
    assert g.VariableLine().store.Of(Subshell) == [];
    TakesOneMoves(Plain(g.Command()), lines, n, g.VariableLine(), Plain(g.a), Wrap(Subshell, g.Inner()), Plain(g.z), TrimOf(g.Inner()), g.SubstitutionLine());
  }

  lemma BodyInLine(g: VariableInside)
    ensures var m := Wrap(Subshell, g.Inner());
      && g.VariableLine().text == Plain(g.a) + (m + Plain(g.z))
      && |m| == |g.b| + |g.c| + 4 && StoredFor(7, m) == TrimOf(g.Inner())
  {
    var m := Wrap(Subshell, g.Inner());
    assert m[2..|m| - 1] == g.Inner();
  }

  lemma VariableInsideByPasses(g: VariableInside, lines: seq<Line>, i: nat, j: nat, e: nat)
    requires g.Valid() && i == 5 && j == 7 && e == CAPTURE_COUNT && IsTrace(lines, Plain(g.Command()))
    ensures lines[e] == g.SubstitutionLine()
  {
    QuietBeforeVariable(g);
    VariableLineIs(g, lines, i);
    QuietBetween(g);
    SubstitutionLineIs(g, lines, j);
    QuietOutside(g, j + 1);
    TwoCaptures(Plain(g.Command()), lines, i, j, e, Line(EMPTY, Plain(g.Command())), g.VariableLine(), g.SubstitutionLine());
  }

  lemma VariableInsideIsCaptured(g: VariableInside)
    requires g.Valid()
    ensures Captured(Plain(g.Command())) == g.SubstitutionLine()
  {
    var lines := TraceOf(Plain(g.Command()));
    VariableInsideByPasses(g, lines, 5, 7, CAPTURE_COUNT);
    TraceEnds(Plain(g.Command()), lines, g.SubstitutionLine());
  }

  lemma QuietBetween(g: VariableInside)
    requires g.Valid()
    ensures Quiet(6, 7, g.VariableLine().text)
  {
    HiddenIs(g);
    HiddenHas(g);
    QuietAtDollar(6, g.VariableLine().text, |g.a|);
    OneQuiet(6, g.VariableLine().text);
  }

  lemma OneQuiet(n: nat, text: Symbols)
    requires n < CAPTURE_COUNT && QuietAt(n, text)
    ensures Quiet(n, n + 1, text)
  {
  }

  lemma QuietOutside(g: VariableInside, n: nat)
    requires g.Valid()
    ensures Quiet(n, CAPTURE_COUNT, g.SubstitutionLine().text)
  {
    QuietWithoutBegins(n, CAPTURE_COUNT, g.SubstitutionLine().text);
  }

  /**
   * A substitution with a variable in it comes out exactly when the tokenizer makes it a
   * word of its own; inside a longer word the variable's placeholder stays.
   */
  lemma VariableInsideComesOutExactlyWhen(g: VariableInside, tokens: seq<TokenGrouping.Token>, reading: Reading)
    requires g.Valid() && KeepsPlaceholders(Captured(Plain(g.Command())).text, tokens, reading)
    ensures var store := Captured(Plain(g.Command())).store;
      AllComeOut(store, Commands(TokenGrouping.Groups(tokens), reading, store)) <==> StandsAlone(tokens, Ref(Subshell, 0))
  {
    VariableInsideIsCaptured(g);
    LineComesOutExactlyWhen(Plain(g.Command()), tokens, reading);
    OthersFitExactlyWhenAlone(g, tokens);
  }

  lemma OthersFitExactlyWhenAlone(g: VariableInside, tokens: seq<TokenGrouping.Token>)
    requires g.Valid()
    ensures OthersFit(g.SubstitutionLine().store, tokens) <==> StandsAlone(tokens, Ref(Subshell, 0))
  {
    var store := g.SubstitutionLine().store;
    BodyHoldsVariable(g);
    StoredInSubstitutionLine(g);
    OnlyOneIsUnfit(store, tokens, Subshell);
  }

  /** A single fragment that is not fit, and nothing but fit ones of other kinds. */
  lemma OnlyOneIsUnfit(store: Store, tokens: seq<TokenGrouping.Token>, outer: Kind)
    requires |store.Of(outer)| == 1 && !Without(store.Of(outer)[0], Unfit(outer))
    requires forall kind, id :: 0 <= id < |store.Of(kind)| && kind != outer ==> RefFree(store.Of(kind)[id])
    ensures OthersFit(store, tokens) <==> StandsAlone(tokens, Ref(outer, 0))
  {
  }

  lemma StoredInSubstitutionLine(g: VariableInside)
    ensures var store := g.SubstitutionLine().store;
      && store.Of(Subshell) == [TrimOf(g.Inner())] && store.Of(Variable) == [g.Name()]
      && forall kind: Kind :: kind != Subshell && kind != Variable ==> store.Of(kind) == []
  {
    assert forall kind: Kind :: EMPTY.Of(kind) == [];
  }

  lemma BodyHoldsVariable(g: VariableInside)
    requires g.Valid()
    ensures !Without(TrimOf(g.Inner()), Unfit(Subshell))
  {
    var inner := g.Inner();
    TrimStartKeepsRefs(inner);
    TrimEndKeepsRefs(TrimStartOf(inner));
    KeepsRefsTrans(inner, TrimStartOf(inner), TrimOf(inner));
    assert inner[|g.b|] == Ref(Variable, 0);
    var k :| 0 <= k < |TrimOf(g.Inner())| && TrimOf(g.Inner())[k] == Ref(Variable, 0);
  }

  // ---------------------------------------------------------------- an arithmetic expansion inside a parameter expansion

  /** A calm text with an arithmetic expansion inside a parameter expansion: `a${b$((e))c}z`. */
  datatype ArithmeticInside = ArithmeticInside(a: string, b: string, e: string, c: string, z: string)
  {
    predicate Valid() {
      IsCalm(a) && IsCalm(b) && IsCalm(e) && IsCalm(c) && IsCalm(z)
    }

    function Command(): string {
      a + ("$" + (("{" + b) + ("$" + ("((" + (e + ("))" + (c + ("}" + z))))))))
    }

    function Hidden(): string {
      a + ("${" + (b + ("_" + (c + ("}" + z)))))
    }

    function At(): nat {
      |a| + 2 + |b|
    }

    function Before(): Symbols {
      Plain(a + ("${" + b))
    }

    function Arithmetics(): Symbols {
      Plain("$((" + (e + "))"))
    }

    function After(): Symbols {
      Plain(c + ("}" + z))
    }

    /** The line with the arithmetic expansion hidden. */
    function ArithmeticLine(): Line {
      Line(EMPTY.Push(Arithmetic, [Arithmetics()]), Before() + ([Ref(Arithmetic, 0)] + After()))
    }

    function Inner(): Symbols {
      Plain("${" + b) + ([Ref(Arithmetic, 0)] + Plain(c + "}"))
    }

    /** The line with the parameter expansion hidden, too. */
    function ParameterLine(): Line {
      Line(ArithmeticLine().store.Push(Parameter, [Inner()]), Plain(a) + ([Ref(Parameter, 0)] + Plain(z)))
    }
  }

  /** An arithmetic expansion with `n` characters in it, and no parenthesis closed behind it. */
  predicate ArithmeticAt(s: string, at: nat, n: nat) {
    && OpensArithmetic(s, at) && at + 5 + n <= |s| && Pair(s, at + 3 + n, ')', ')')
    && forall k :: at + 5 + n <= k < |s| ==> s[k] != ')'
  }

  lemma ArithmeticEnds(s: string, at: nat, n: nat)
    requires ArithmeticAt(s, at, n)
    ensures MatchEnd(1, s, at) == Some(at + 5 + n)
  {
    var end := LastClose(s, at + 3);
    assert end.Some? && at + 5 + n <= end.value;
    assert Pair(s, end.value - 2, ')', ')');
  }

  lemma ArithmeticCommandHas(g: ArithmeticInside)
    requires g.Valid()
    ensures OnlyDollars(g.Command(), |g.a|, g.At()) && g.Command()[|g.a| + 1] == '{'
  {
    TwoDollars(g.a, "{" + g.b, "((" + (g.e + ("))" + (g.c + ("}" + g.z)))));
  }

  lemma ArithmeticCommandEnds(g: ArithmeticInside)
    requires g.Valid()
    ensures ArithmeticAt(g.Command(), g.At(), |g.e|)
  {
    ArithmeticWithin(g.a + ("${" + g.b), g.e, g.c + ("}" + g.z));
    assert g.Command() == (g.a + ("${" + g.b)) + ("$((" + (g.e + ("))" + (g.c + ("}" + g.z)))));
  }

  lemma ArithmeticWithin(before: string, e: string, after: string)
    requires forall k :: 0 <= k < |after| ==> after[k] != ')'
    ensures ArithmeticAt(before + ("$((" + (e + ("))" + after))), |before|, |e|)
  {
    var s, from := before + ("$((" + (e + ("))" + after))), |before| + 5 + |e|;
    assert forall k :: from <= k < |s| ==> s[k] == after[k - from];
  }

  lemma OneArithmetic(s: string, at: nat, p: nat)
    requires OnlyDollars(s, p, at) && p + 1 < |s| && s[p + 1] != '('
    ensures forall i :: 0 <= i < |s| && i != at ==> NoMatch(1, s, i)
    ensures forall i :: 0 <= i < |s| ==> NoMatch(0, s, i)
  {
    forall i | 0 <= i < |s| ensures NoMatch(0, s, i) && (i != at ==> NoMatch(1, s, i)) {
      MatchBegins(0, s, i);
      MatchBegins(1, s, i);
      if i == p && MatchEnd(1, s, i).Some? { DollarThen(1, s, i); }
    }
  }

  lemma ArithmeticIsTaken(g: ArithmeticInside)
    requires g.Valid()
    ensures TakesOne(1, Plain(g.Command()), g.At(), g.At() + 5 + |g.e|)
  {
    ArithmeticCommandHas(g);
    ArithmeticCommandEnds(g);
    ArithmeticTaken(g.Command(), g.At(), |g.e|, |g.a|);
  }

  lemma ArithmeticTaken(s: string, at: nat, n: nat, p: nat)
    requires OnlyDollars(s, p, at) && p + 1 < |s| && s[p + 1] != '('
    requires ArithmeticAt(s, at, n)
    ensures TakesOne(1, Plain(s), at, at + 5 + n)
  {
    assert Outline(Plain(s)) == s;
    ArithmeticEnds(s, at, n);
    OneArithmetic(s, at, p);
  }

  lemma QuietBeforeArithmetic(g: ArithmeticInside)
    requires g.Valid()
    ensures Quiet(0, 1, Plain(g.Command()))
  {
    assert Outline(Plain(g.Command())) == g.Command();
    ArithmeticCommandHas(g);
    OneArithmetic(g.Command(), g.At(), |g.a|);
    AllQuiet(0, 1, Plain(g.Command()));
  }

  lemma ArithmeticInLine(g: ArithmeticInside)
    ensures Plain(g.Command()) == g.Before() + (g.Arithmetics() + g.After())
    ensures |g.Before()| == g.At() && |g.Arithmetics()| == 5 + |g.e|
  {
  }

  lemma ArithmeticLineIs(g: ArithmeticInside, lines: seq<Line>, n: nat)
    requires g.Valid() && n == 1 && IsTrace(lines, Plain(g.Command()))
    ensures Moves(lines, n, Line(EMPTY, Plain(g.Command())), g.ArithmeticLine())
  {
    ArithmeticIsTaken(g);
    ArithmeticInLine(g);
    TakesOneMoves(Plain(g.Command()), lines, n, Line(EMPTY, Plain(g.Command())), g.Before(), g.Arithmetics(), g.After(), g.Arithmetics(), g.ArithmeticLine());
  }

  lemma HiddenArithmeticIs(g: ArithmeticInside)
    requires g.Valid()
    ensures Outline(g.ArithmeticLine().text) == g.Hidden()
  {
  }

  lemma HiddenArithmeticHas(g: ArithmeticInside)
    requires g.Valid()
    ensures var s := g.Hidden();
      && OnlyDollar(s, |g.a|) && s[|g.a| + 1] == '{'
      && Encloses(s, |g.a|, 2, |g.a| + 2 + |g.b| + 1 + |g.c| + 1, '}')
  {
  }

  lemma ParameterTaken(text: Symbols, at: nat, e: nat)
    requires var s := Outline(text);
      OnlyDollar(s, at) && at + 3 < e <= |s| && Pair(s, at, '$', '{') && Encloses(s, at, 2, e, '}')
    ensures TakesOne(3, text, at, e)
  {
    FirstCloseEncloses(Outline(text), at, 2, 1, '}', e);
    NothingBesideDollar(3, Outline(text), at);
  }

  lemma ParameterIsTaken(g: ArithmeticInside)
    requires g.Valid()
    ensures TakesOne(3, g.ArithmeticLine().text, |g.a|, |g.a| + 2 + |g.b| + 1 + |g.c| + 1)
  {
    HiddenArithmeticIs(g);
    HiddenArithmeticHas(g);
    ParameterTaken(g.ArithmeticLine().text, |g.a|, |g.a| + 2 + |g.b| + 1 + |g.c| + 1);
  }

  lemma NoBracket(s: string, p: nat)
    requires OnlyDollar(s, p) && s[p + 1] != '['
    ensures NoMatch(2, s, p)
  {
  }

  lemma QuietBetweenExpansions(g: ArithmeticInside)
    requires g.Valid()
    ensures Quiet(2, 3, g.ArithmeticLine().text)
  {
    HiddenArithmeticIs(g);
    HiddenArithmeticHas(g);
    NoBracket(g.Hidden(), |g.a|);
    QuietAtDollar(2, g.ArithmeticLine().text, |g.a|);
    OneQuiet(2, g.ArithmeticLine().text);
  }

  lemma QuietOutsideExpansion(g: ArithmeticInside, n: nat)
    requires g.Valid()
    ensures Quiet(n, CAPTURE_COUNT, g.ParameterLine().text)
  {
    QuietWithoutBegins(n, CAPTURE_COUNT, g.ParameterLine().text);
  }

  lemma ParameterInLine(g: ArithmeticInside)
    ensures g.ArithmeticLine().text == Plain(g.a) + (g.Inner() + Plain(g.z)) && |g.Inner()| == 2 + |g.b| + 1 + |g.c| + 1
  {
  }

  lemma ParameterLineIs(g: ArithmeticInside, lines: seq<Line>, n: nat)
    requires g.Valid() && n == 3 && IsTrace(lines, Plain(g.Command()))
    ensures Moves(lines, n, g.ArithmeticLine(), g.ParameterLine())
  {
    ParameterIsTaken(g);
    ParameterInLine(g);
    assert g.ArithmeticLine().store.Of(Parameter) == [];
    TakesOneMoves(Plain(g.Command()), lines, n, g.ArithmeticLine(), Plain(g.a), g.Inner(), Plain(g.z), g.Inner(), g.ParameterLine());
  }

  lemma ArithmeticInsideByPasses(g: ArithmeticInside, lines: seq<Line>, i: nat, j: nat, e: nat)
    requires g.Valid() && i == 1 && j == 3 && e == CAPTURE_COUNT && IsTrace(lines, Plain(g.Command()))
    ensures lines[e] == g.ParameterLine()
  {
    QuietBeforeArithmetic(g);
    ArithmeticLineIs(g, lines, i);
    QuietBetweenExpansions(g);
    ParameterLineIs(g, lines, j);
    QuietOutsideExpansion(g, j + 1);
    TwoCaptures(Plain(g.Command()), lines, i, j, e, Line(EMPTY, Plain(g.Command())), g.ArithmeticLine(), g.ParameterLine());
  }

  lemma ArithmeticInsideIsCaptured(g: ArithmeticInside)
    requires g.Valid()
    ensures Captured(Plain(g.Command())) == g.ParameterLine()
  {
    var lines := TraceOf(Plain(g.Command()));
    ArithmeticInsideByPasses(g, lines, 1, 3, CAPTURE_COUNT);
    TraceEnds(Plain(g.Command()), lines, g.ParameterLine());
  }

  lemma StoredInParameterLine(g: ArithmeticInside)
    ensures var store := g.ParameterLine().store;
      && store.Of(Parameter) == [g.Inner()] && !Without(g.Inner(), Unfit(Parameter))
      && forall kind, id :: 0 <= id < |store.Of(kind)| && kind != Parameter ==> RefFree(store.Of(kind)[id])
  {
    assert forall kind: Kind :: EMPTY.Of(kind) == [];
    assert g.Inner()[|"${" + g.b|] == Ref(Arithmetic, 0);
  }

  /** A parameter expansion with an arithmetic one in it never comes out, whatever the tokenizer does. */
  lemma ArithmeticInsideIsLost(g: ArithmeticInside, tokens: seq<TokenGrouping.Token>, reading: Reading)
    requires g.Valid() && KeepsPlaceholders(Captured(Plain(g.Command())).text, tokens, reading)
    ensures var store := Captured(Plain(g.Command())).store;
      !AllComeOut(store, Commands(TokenGrouping.Groups(tokens), reading, store))
  {
    ArithmeticInsideIsCaptured(g);
    LineComesOutExactlyWhen(Plain(g.Command()), tokens, reading);
    StoredInParameterLine(g);
    OnlyOneIsUnfit(g.ParameterLine().store, tokens, Parameter);
  }

  // ---------------------------------------------------------------- a dollar sign before an arithmetic expansion

  /** A calm text with an arithmetic expansion right after a dollar sign: `a$$((e))z`. */
  datatype DollarBefore = DollarBefore(a: string, e: string, z: string)
  {
    predicate Valid() {
      IsCalm(a) && IsCalm(e) && IsCalm(z) && EndsName(z)
    }

    function Command(): string {
      a + ("$" + ("" + ("$" + ("((" + (e + ("))" + z))))))
    }

    function Arithmetics(): Symbols {
      Plain("$((" + (e + "))"))
    }

    /** The line with the arithmetic expansion hidden. */
    function ArithmeticLine(): Line {
      Line(EMPTY.Push(Arithmetic, [Arithmetics()]), Plain(a + "$") + ([Ref(Arithmetic, 0)] + Plain(z)))
    }

    function Inner(): Symbols {
      [Ch('$'), Ref(Arithmetic, 0)]
    }

    /** The line in which dollar sign and placeholder are hidden as a variable. */
    function VariableLine(): Line {
      Line(ArithmeticLine().store.Push(Variable, [Inner()]), Plain(a) + ([Ref(Variable, 0)] + Plain(z)))
    }
  }

  lemma DollarCommandHas(g: DollarBefore)
    requires g.Valid()
    ensures OnlyDollars(g.Command(), |g.a|, |g.a| + 1) && g.Command()[|g.a| + 1] == '$'
  {
    TwoDollars(g.a, "", "((" + (g.e + ("))" + g.z)));
  }

  lemma DollarCommandEnds(g: DollarBefore)
    requires g.Valid()
    ensures ArithmeticAt(g.Command(), |g.a| + 1, |g.e|)
  {
    ArithmeticWithin(g.a + "$", g.e, g.z);
    assert g.Command() == (g.a + "$") + ("$((" + (g.e + ("))" + g.z)));
  }

  lemma ArithmeticAfterDollar(g: DollarBefore)
    requires g.Valid()
    ensures TakesOne(1, Plain(g.Command()), |g.a| + 1, |g.a| + 6 + |g.e|)
  {
    DollarCommandHas(g);
    DollarCommandEnds(g);
    ArithmeticTaken(g.Command(), |g.a| + 1, |g.e|, |g.a|);
  }

  lemma QuietBeforeDollar(g: DollarBefore)
    requires g.Valid()
    ensures Quiet(0, 1, Plain(g.Command()))
  {
    DollarCommandHas(g);
    OneArithmetic(g.Command(), |g.a| + 1, |g.a|);
    assert Outline(Plain(g.Command())) == g.Command();
    OneQuiet(0, Plain(g.Command()));
  }

  lemma DollarInLine(g: DollarBefore)
    ensures Plain(g.Command()) == Plain(g.a + "$") + (g.Arithmetics() + Plain(g.z)) && |g.Arithmetics()| == 5 + |g.e|
  {
  }

  lemma DollarLineIs(g: DollarBefore, lines: seq<Line>, n: nat)
    requires g.Valid() && n == 1 && IsTrace(lines, Plain(g.Command()))
    ensures Moves(lines, n, Line(EMPTY, Plain(g.Command())), g.ArithmeticLine())
  {
    ArithmeticAfterDollar(g);
    DollarInLine(g);
    TakesOneMoves(Plain(g.Command()), lines, n, Line(EMPTY, Plain(g.Command())), Plain(g.a + "$"), g.Arithmetics(), Plain(g.z), g.Arithmetics(), g.ArithmeticLine());
  }

  lemma HiddenDollarIs(g: DollarBefore)
    requires g.Valid()
    ensures var s := Outline(g.ArithmeticLine().text);
      OnlyDollar(s, |g.a|) && s[|g.a| + 1] == '_' && (|g.a| + 2 < |s| ==> !IsWordChar(s[|g.a| + 2]))
  {
    OneDollar(g.a, "_" + g.z);
    assert Outline(g.ArithmeticLine().text) == g.a + ("$" + ("_" + g.z));
  }

  lemma PlaceholderTaken(text: Symbols, at: nat)
    requires var s := Outline(text);
      OnlyDollar(s, at) && s[at + 1] == '_' && (at + 2 < |s| ==> !IsWordChar(s[at + 2]))
    ensures TakesOne(5, text, at, at + 2)
  {
    var s := Outline(text);
    StretchIsLongest(s, at + 1, IsWordChar, at + 2);
    NothingBesideDollar(5, s, at);
  }

  lemma PlaceholderInLine(g: DollarBefore)
    ensures g.ArithmeticLine().text == Plain(g.a) + (g.Inner() + Plain(g.z))
  {
  }

  lemma PlaceholderIsTaken(g: DollarBefore)
    requires g.Valid()
    ensures TakesOne(5, g.ArithmeticLine().text, |g.a|, |g.a| + 2)
  {
    HiddenDollarIs(g);
    PlaceholderTaken(g.ArithmeticLine().text, |g.a|);
  }

  lemma DollarVariableLineIs(g: DollarBefore, lines: seq<Line>, n: nat)
    requires g.Valid() && n == 5 && IsTrace(lines, Plain(g.Command()))
    ensures Moves(lines, n, g.ArithmeticLine(), g.VariableLine())
  {
    PlaceholderIsTaken(g);
    PlaceholderInLine(g);
    assert g.ArithmeticLine().store.Of(Variable) == [];
    TakesOneMoves(Plain(g.Command()), lines, n, g.ArithmeticLine(), Plain(g.a), g.Inner(), Plain(g.z), g.Inner(), g.VariableLine());
  }

  lemma QuietBeforeName(g: DollarBefore, m: nat)
    requires g.Valid() && 2 <= m <= 5
    ensures Quiet(m, 5, g.ArithmeticLine().text)
    decreases 5 - m
  {
    if m < 5 {
      HiddenDollarIs(g);
      QuietAtDollar(m, g.ArithmeticLine().text, |g.a|);
      QuietBeforeName(g, m + 1);
    }
  }

  lemma QuietBehindName(g: DollarBefore, n: nat)
    requires g.Valid()
    ensures Quiet(n, CAPTURE_COUNT, g.VariableLine().text)
  {
    QuietWithoutBegins(n, CAPTURE_COUNT, g.VariableLine().text);
  }

  lemma DollarBeforeByPasses(g: DollarBefore, lines: seq<Line>, i: nat, j: nat, e: nat)
    requires g.Valid() && i == 1 && j == 5 && e == CAPTURE_COUNT && IsTrace(lines, Plain(g.Command()))
    ensures lines[e] == g.VariableLine()
  {
    QuietBeforeDollar(g);
    DollarLineIs(g, lines, i);
    QuietBeforeName(g, i + 1);
    DollarVariableLineIs(g, lines, j);
    QuietBehindName(g, j + 1);
    TwoCaptures(Plain(g.Command()), lines, i, j, e, Line(EMPTY, Plain(g.Command())), g.ArithmeticLine(), g.VariableLine());
  }

  lemma DollarBeforeIsCaptured(g: DollarBefore)
    requires g.Valid()
    ensures Captured(Plain(g.Command())) == g.VariableLine()
  {
    var lines := TraceOf(Plain(g.Command()));
    DollarBeforeByPasses(g, lines, 1, 5, CAPTURE_COUNT);
    TraceEnds(Plain(g.Command()), lines, g.VariableLine());
  }

  lemma StoredInVariableLine(g: DollarBefore)
    ensures var store := g.VariableLine().store;
      && store.Of(Variable) == [g.Inner()] && !Without(g.Inner(), Unfit(Variable))
      && forall kind, id :: 0 <= id < |store.Of(kind)| && kind != Variable ==> RefFree(store.Of(kind)[id])
  {
    assert forall kind: Kind :: EMPTY.Of(kind) == [];
    assert g.Inner()[1] == Ref(Arithmetic, 0);
  }

  /** The dollar sign and the placeholder read as a variable, and the arithmetic expansion never comes out. */
  lemma DollarBeforeIsLost(g: DollarBefore, tokens: seq<TokenGrouping.Token>, reading: Reading)
    requires g.Valid() && KeepsPlaceholders(Captured(Plain(g.Command())).text, tokens, reading)
    ensures var store := Captured(Plain(g.Command())).store;
      !AllComeOut(store, Commands(TokenGrouping.Groups(tokens), reading, store))
  {
    DollarBeforeIsCaptured(g);
    LineComesOutExactlyWhen(Plain(g.Command()), tokens, reading);
    StoredInVariableLine(g);
    OnlyOneIsUnfit(g.VariableLine().store, tokens, Variable);
  }

  // ---------------------------------------------------------------- what is left, exactly

  /** No pass from `p` on restores a placeholder of the text. */
  predicate Settled(p: nat, text: Symbols)
    requires p <= PASS_COUNT
  {
    forall q, i :: p <= q < PASS_COUNT && 0 <= i < |text| && text[i].Ref? ==> text[i].kind != Pass(q)
  }

  lemma {:induction false} ReplacesNone(store: Store, kind: Kind, text: Symbols)
    requires forall i :: 0 <= i < |text| && text[i].Ref? ==> text[i].kind != kind
    ensures Replace(store, {kind}, text) == text
  {
    if text != [] {
      ReplacesNone(store, kind, text[1..]);
      assert [text[0]] + text[1..] == text;
    }
  }

  lemma {:induction false} SettledStays(store: Store, p: nat, text: Symbols)
    requires p <= PASS_COUNT && Settled(p, text)
    ensures RunFrom(store, p, text) == text
    decreases PASS_COUNT - p
  {
    if p < PASS_COUNT {
      ReplacesNone(store, Pass(p), text);
      SettledStays(store, p + 1, text);
    }
  }

  /** The first pass for a kind puts its fragment in. */
  lemma {:induction false} RunTo(store: Store, p: nat, q: nat, s: Symbol)
    requires p <= q < PASS_COUNT && s.Ref? && Pass(q) == s.kind && forall k :: p <= k < q ==> Pass(k) != s.kind
    ensures RunFrom(store, p, [s]) == RunFrom(store, q + 1, Fragment(store, s.kind, s.id))
    decreases q - p
  {
    RunStep(store, p, s);
    if p < q {
      assert ReplaceOne(store, {Pass(p)}, s) == [s];
      RunTo(store, p + 1, q, s);
    } else {
      assert ReplaceOne(store, {Pass(p)}, s) == Fragment(store, s.kind, s.id);
    }
  }

  /** One placeholder in plain text, whose fragment no later pass touches. */
  lemma OneRestored(store: Store, p: nat, q: nat, a: Symbols, s: Symbol, z: Symbols)
    requires p <= q < PASS_COUNT && s.Ref? && Pass(q) == s.kind && forall k :: p <= k < q ==> Pass(k) != s.kind
    requires RefFree(a) && RefFree(z) && Settled(q + 1, Fragment(store, s.kind, s.id))
    ensures RunFrom(store, p, a + ([s] + z)) == a + (Fragment(store, s.kind, s.id) + z)
  {
    RunAppend(store, p, a, [s] + z);
    RunAppend(store, p, [s], z);
    RunKeepsPlain(store, p, a);
    RunKeepsPlain(store, p, z);
    RunTo(store, p, q, s);
    SettledStays(store, q + 1, Fragment(store, s.kind, s.id));
  }

  lemma OneIsRestored(store: Store, p: nat, q: nat, a: Symbols, s: Symbol, z: Symbols, held: Symbols)
    requires p <= q < PASS_COUNT && s.Ref? && Pass(q) == s.kind && forall k :: p <= k < q ==> Pass(k) != s.kind
    requires RefFree(a) && RefFree(z) && Settled(q + 1, Wrap(s.kind, held)) && s.id == 0 && store.Of(s.kind) == [held]
    ensures RunFrom(store, p, a + ([s] + z)) == a + (Wrap(s.kind, held) + z)
  {
    assert Fragment(store, s.kind, s.id) == Wrap(s.kind, held);
    OneRestored(store, p, q, a, s, z);
  }

  /** What is restored of the line if the substitution is not a word of its own. */
  lemma VariableInsideLeaves(g: VariableInside)
    requires g.Valid()
    ensures var line := Captured(Plain(g.Command()));
      && line.text == Plain(g.a) + ([Ref(Subshell, 0)] + Plain(g.z))
      && RunFrom(line.store, 0, line.text) == Plain(g.a) + (Wrap(Subshell, TrimOf(g.Inner())) + Plain(g.z))
  {
    VariableInsideIsCaptured(g);
    SubstitutionIsRestored(g, 0);
  }

  lemma SubstitutionIsRestored(g: VariableInside, p: nat)
    requires g.Valid() && p == 0
    ensures var line := g.SubstitutionLine();
      RunFrom(line.store, p, line.text) == Plain(g.a) + (Wrap(Subshell, TrimOf(g.Inner())) + Plain(g.z))
  {
    StoredInSubstitutionLine(g);
    InnerIsSettled(g);
    SubshellIsRestored(g.SubstitutionLine().store, p, Plain(g.a), Plain(g.z), TrimOf(g.Inner()));
  }

  lemma SubshellIsRestored(store: Store, p: nat, a: Symbols, z: Symbols, held: Symbols)
    requires p == 0 && RefFree(a) && RefFree(z) && store.Of(Subshell) == [held] && Settled(7, Wrap(Subshell, held))
    ensures RunFrom(store, p, a + ([Ref(Subshell, 0)] + z)) == a + (Wrap(Subshell, held) + z)
  {
    OneIsRestored(store, p, 6, a, Ref(Subshell, 0), z, held);
  }

  lemma InnerIsSettled(g: VariableInside)
    ensures Settled(7, Wrap(Subshell, TrimOf(g.Inner())))
  {
    var inner := g.Inner();
    TrimStartKeepsRefs(inner);
    TrimEndKeepsRefs(TrimStartOf(inner));
    KeepsRefsTrans(inner, TrimStartOf(inner), TrimOf(inner));
    WrapKeepsRefs(Subshell, TrimOf(inner));
    var wrapped := Wrap(Subshell, TrimOf(inner));
    forall i | 0 <= i < |wrapped| && wrapped[i].Ref? ensures wrapped[i].kind == Variable {
      assert wrapped[i] in TrimOf(inner);
      assert wrapped[i] in inner;
    }
  }

  lemma ArithmeticInsideLeaves(g: ArithmeticInside)
    requires g.Valid()
    ensures var line := Captured(Plain(g.Command()));
      && line.text == Plain(g.a) + ([Ref(Parameter, 0)] + Plain(g.z))
      && RunFrom(line.store, 0, line.text) == Plain(g.a) + (g.Inner() + Plain(g.z))
  {
    ArithmeticInsideIsCaptured(g);
    ParameterIsRestored(g, 0);
  }

  lemma ParameterIsRestored(g: ArithmeticInside, p: nat)
    requires g.Valid() && p == 0
    ensures var line := g.ParameterLine();
      RunFrom(line.store, p, line.text) == Plain(g.a) + (g.Inner() + Plain(g.z))
  {
    StoredInParameterLine(g);
    OneKindIsSettled(5, g.Inner(), Arithmetic);
    OneIsRestored(g.ParameterLine().store, p, 4, Plain(g.a), Ref(Parameter, 0), Plain(g.z), g.Inner());
  }

  lemma OneKindIsSettled(p: nat, text: Symbols, kind: Kind)
    requires 4 <= p <= PASS_COUNT && kind == Arithmetic
    requires forall i :: 0 <= i < |text| && text[i].Ref? ==> text[i].kind == kind
    ensures Settled(p, text)
  {
  }

  lemma DollarBeforeLeaves(g: DollarBefore)
    requires g.Valid()
    ensures var line := Captured(Plain(g.Command()));
      && line.text == Plain(g.a) + ([Ref(Variable, 0)] + Plain(g.z))
      && RunFrom(line.store, 0, line.text) == Plain(g.a) + (g.Inner() + Plain(g.z))
  {
    DollarBeforeIsCaptured(g);
    VariableIsRestored(g, 0);
  }

  lemma VariableIsRestored(g: DollarBefore, p: nat)
    requires g.Valid() && p == 0
    ensures var line := g.VariableLine();
      RunFrom(line.store, p, line.text) == Plain(g.a) + (g.Inner() + Plain(g.z))
  {
    StoredInVariableLine(g);
    OneKindIsSettled(6, g.Inner(), Arithmetic);
    OneIsRestored(g.VariableLine().store, p, 5, Plain(g.a), Ref(Variable, 0), Plain(g.z), g.Inner());
  }

  lemma TrimsNothing(text: Symbols)
    requires text != [] && !(text[0].Ch? && IsSpace(text[0].c)) && !(text[|text| - 1].Ch? && IsSpace(text[|text| - 1].c))
    ensures TrimOf(text) == text
  {
  }

  predicate TrimmedBody(g: VariableInside) {
    (g.b != "" ==> !IsSpace(g.b[0])) && (g.c != "" ==> !IsSpace(g.c[|g.c| - 1]))
  }

  lemma BodyTrimsNothing(g: VariableInside)
    requires TrimmedBody(g)
    ensures TrimOf(g.Inner()) == g.Inner()
  {
    TrimsNothing(g.Inner());
  }

  lemma BodyIsRestored(g: VariableInside, p: nat)
    requires g.Valid() && p == 0
    ensures RunFrom(g.SubstitutionLine().store, p, g.Inner()) == Plain(g.b) + (g.Name() + Plain(g.c))
  {
    StoredInSubstitutionLine(g);
    BodyIsRestoredFrom(g, g.SubstitutionLine().store, p);
  }

  lemma BodyIsRestoredFrom(g: VariableInside, store: Store, p: nat)
    requires p == 0 && store.Of(Variable) == [g.Name()]
    ensures RunFrom(store, p, g.Inner()) == Plain(g.b) + (g.Name() + Plain(g.c))
  {
    HeldVariableIsRestored(store, p, Plain(g.b), Plain(g.c), g.Name());
  }

  lemma HeldVariableIsRestored(store: Store, p: nat, a: Symbols, z: Symbols, held: Symbols)
    requires p == 0 && RefFree(a) && RefFree(z) && store.Of(Variable) == [held] && RefFree(held)
    ensures RunFrom(store, p, a + ([Ref(Variable, 0)] + z)) == a + (held + z)
  {
    OneIsRestored(store, p, 5, a, Ref(Variable, 0), z, held);
  }

  /**
   * As a word of its own the substitution does no harm: behind a plain word it becomes
   * a second command, its body as it was written, as in `echo $(a $h)`.
   */
  lemma VariableInsideAloneComesOut(g: VariableInside, word: TokenGrouping.Token, body: TokenGrouping.Token, reading: Reading)
    requires g.Valid() && TrimmedBody(g)
    requires TokenGrouping.RoleOf(word).Part? && RefFree(reading(TokenGrouping.RoleOf(word).text))
    requires TokenGrouping.RoleOf(body) == TokenGrouping.Alone(0)
    ensures var store, text := Captured(Plain(g.Command())).store, reading(TokenGrouping.RoleOf(word).text);
      && Commands(TokenGrouping.Groups([word, body]), reading, store) == [Some(text), Some(g.Inner())]
      && RunFrom(store, 0, text) == text
      && RunFrom(store, 0, g.Inner()) == Plain(g.b) + (g.Name() + Plain(g.c))
  {
    VariableInsideIsCaptured(g);
    BodyTrimsNothing(g);
    StoredInSubstitutionLine(g);
    WordThenBody(word, body, reading, g.SubstitutionLine().store);
    RunKeepsPlain(g.SubstitutionLine().store, 0, reading(TokenGrouping.RoleOf(word).text));
    BodyIsRestored(g, 0);
  }

  lemma WordThenBody(word: TokenGrouping.Token, body: TokenGrouping.Token, reading: Reading, store: Store)
    requires TokenGrouping.RoleOf(word).Part? && TokenGrouping.RoleOf(body) == TokenGrouping.Alone(0) && |store.subshells| > 0
    ensures Commands(TokenGrouping.Groups([word, body]), reading, store)
         == [Some(reading(TokenGrouping.RoleOf(word).text)), Some(store.subshells[0])]
  {
    var text := TokenGrouping.RoleOf(word).text;
    TokenGrouping.SplitsAtSeparator([word], body, []);
    assert [word] + ([body] + []) == [word, body];
    assert !TokenGrouping.Separates(word);
    TokenGrouping.OneRun([word]);
    TokenGrouping.OneRun([]);
    assert TokenGrouping.Words([word]) == [text];
    assert TokenGrouping.Groups([word, body]) == [TokenGrouping.Run([text]), TokenGrouping.Body(0)];
  }

  /** A line in which no pattern matches comes out as its tokens read. */
  lemma PlainWordComesOut(command: string, text: Symbols)
    requires NoneBegins(command) && RefFree(text)
    ensures Captured(Plain(command)) == Line(EMPTY, Plain(command))
    ensures RunFrom(Captured(Plain(command)).store, 0, text) == text
  {
    LineWithoutPatternsStays(command);
    RunKeepsPlain(EMPTY, 0, text);
  }

  // ---------------------------------------------------------------- instances

  /** A variable inside a substitution that is part of a word: `x=$(a $h)` becomes `x=$(a __VAR_0__)`. */
  lemma VariableInSubstitutionIsLost(command: string)
    requires command == "x=$(a $h)"
    ensures var line := Captured(Plain(command));
      && line.text == Plain("x=") + [Ref(Subshell, 0)]
      && RunFrom(line.store, 0, line.text) == Plain("x=$(a ") + ([Ref(Variable, 0)] + Plain(")"))
  {
    var g := VariableInside("x=", "a ", "h", "", "");
    WitnessOne(g);
    VariableInsideLeaves(g);
    BodyOfWitness(g);
  }

  lemma WitnessOne(g: VariableInside)
    requires g == VariableInside("x=", "a ", "h", "", "")
    ensures g.Valid() && g.Command() == "x=$(a $h)"
  {
    CalmWitnesses();
    assert g.Command() == "x=" + ("$" + (("(" + "a ") + ("$" + ("h" + ("" + ")" + "")))));
  }

  lemma BodyOfWitness(g: VariableInside)
    requires g == VariableInside("x=", "a ", "h", "", "")
    ensures Plain(g.a) + ([Ref(Subshell, 0)] + Plain(g.z)) == Plain("x=") + [Ref(Subshell, 0)]
    ensures Plain(g.a) + (Wrap(Subshell, TrimOf(g.Inner())) + Plain(g.z)) == Plain("x=$(a ") + ([Ref(Variable, 0)] + Plain(")"))
  {
    var body := Plain("a ") + [Ref(Variable, 0)];
    assert g.Inner() == body;
    assert body[0] == Ch('a') && body[|body| - 1] == Ref(Variable, 0) && !IsSpace('a');
    BodyTrimsNothing(g);
    assert Plain("$(") + body + Plain(")") == Plain("$(a ") + ([Ref(Variable, 0)] + Plain(")"));
    assert Plain("x=") + Plain("$(a ") == Plain("x=$(a ");
  }

  /** An arithmetic expansion inside a parameter expansion: `${x:-$((1))}` becomes `${x:-__ARITH_0__}`. */
  lemma ArithmeticInParameterIsLost(command: string)
    requires command == "${x:-$((1))}"
    ensures var line := Captured(Plain(command));
      && line.text == [Ref(Parameter, 0)]
      && RunFrom(line.store, 0, line.text) == Plain("${x:-") + ([Ref(Arithmetic, 0)] + Plain("}"))
  {
    var g := ArithmeticInside("", "x:-", "1", "", "");
    WitnessTwo(g);
    ArithmeticInsideLeaves(g);
    InnerOfWitness(g);
  }

  lemma WitnessTwo(g: ArithmeticInside)
    requires g == ArithmeticInside("", "x:-", "1", "", "")
    ensures g.Valid() && g.Command() == "${x:-$((1))}"
  {
    CalmWitnesses();
    assert g.Command() == "" + ("$" + (("{" + "x:-") + ("$" + ("((" + ("1" + ("))" + ("" + ("}" + ""))))))));
  }

  lemma CalmWitnesses()
    ensures IsCalm("") && IsCalm("x=") && IsCalm("a ") && IsCalm("x:-") && IsCalm("1") && IsName("h")
  {
  }

  lemma InnerOfWitness(g: ArithmeticInside)
    requires g == ArithmeticInside("", "x:-", "1", "", "")
    ensures Plain(g.a) + ([Ref(Parameter, 0)] + Plain(g.z)) == [Ref(Parameter, 0)]
    ensures Plain(g.a) + (g.Inner() + Plain(g.z)) == Plain("${x:-") + ([Ref(Arithmetic, 0)] + Plain("}"))
  {
    assert "${" + g.b == "${x:-" && g.c + "}" == "}";
  }

  /** A dollar sign before an arithmetic expansion: `$$((1))` becomes `$__ARITH_0__`. */
  lemma ArithmeticInVariableIsLost(command: string)
    requires command == "$$((1))"
    ensures var line := Captured(Plain(command));
      && line.text == [Ref(Variable, 0)]
      && RunFrom(line.store, 0, line.text) == [Ch('$'), Ref(Arithmetic, 0)]
  {
    var g := DollarBefore("", "1", "");
    WitnessThree(g);
    DollarBeforeLeaves(g);
  }

  lemma WitnessThree(g: DollarBefore)
    requires g == DollarBefore("", "1", "")
    ensures g.Valid() && g.Command() == "$$((1))"
    ensures Plain(g.a) + ([Ref(Variable, 0)] + Plain(g.z)) == [Ref(Variable, 0)]
    ensures Plain(g.a) + (g.Inner() + Plain(g.z)) == g.Inner()
  {
  }

}
