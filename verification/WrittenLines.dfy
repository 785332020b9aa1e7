/**
 * What the ten passes hide of a line, told by how the line is written: plain text around
 * one thing of each kind (src/shared/parse-command.ts, lines 155-218).
 */
module WrittenLines {
  import opened Text
  import opened Characters
  import opened Placeholders
  import opened CaptureOrder
  import opened LinePasses
  import opened LostFragments

  // ---------------------------------------------------------------- plain text

  predicate IsPlainChar(c: char) {
    c != '$' && c != '<' && c != '>' && c != '`' && c != '"'
  }

  predicate IsPlainText(s: string) {
    forall i :: 0 <= i < |s| ==> IsPlainChar(s[i])
  }

  /** The line with one placeholder in the place of what was hidden. */
  function WithOne(a: string, kind: Kind, z: string): Symbols {
    Plain(a) + ([Ref(kind, 0)] + Plain(z))
  }

  /** The captured line: one placeholder between the plain texts, and one stored fragment. */
  function OneHidden(a: string, kind: Kind, stored: string, z: string): Line {
    Line(EMPTY.Push(kind, [Plain(stored)]), WithOne(a, kind, z))
  }

  // ---------------------------------------------------------------- one pass takes one thing

  lemma OneCapture(command: Symbols, lines: seq<Line>, i: nat, e: nat, line: Line, one: Line)
    requires IsTrace(lines, command) && i < e <= CAPTURE_COUNT && line == Line(EMPTY, command)
    requires Quiet(0, i, line.text) && Moves(lines, i, line, one) && Quiet(i + 1, e, one.text)
    ensures lines[e] == one
  {
    QuietIsStill(command, lines, 0, i, line);
    QuietIsStill(command, lines, i + 1, e, one);
    TraceBegins(command, lines);
  }

  lemma QuietAfterwards(n: nat, a: string, kind: Kind, z: string)
    requires IsPlainText(a) && IsPlainText(z)
    ensures Quiet(n, CAPTURE_COUNT, WithOne(a, kind, z))
  {
    QuietWithoutBegins(n, CAPTURE_COUNT, WithOne(a, kind, z));
  }

  lemma PlainPieces(a: string, m: string, z: string)
    ensures Plain(a + (m + z)) == Plain(a) + (Plain(m) + Plain(z))
  {
  }

  lemma HiddenByPass(n: nat, a: string, m: string, z: string, stored: string)
    requires n < CAPTURE_COUNT && IsPlainText(a) && IsPlainText(z)
    requires Quiet(0, n, Plain(a + (m + z))) && TakesOne(n, Plain(a + (m + z)), |a|, |a| + |m|)
    requires |m| > Width(n) ==> StoredFor(n, Plain(m)) == Plain(stored)
    ensures Captured(Plain(a + (m + z))) == OneHidden(a, CaptureKind(n), stored, z)
  {
    var command, one := Plain(a + (m + z)), OneHidden(a, CaptureKind(n), stored, z);
    var lines := TraceOf(command);
    PlainPieces(a, m, z);
    NothingStored(CaptureKind(n));
    TakesOneMoves(command, lines, n, Line(EMPTY, command), Plain(a), Plain(m), Plain(z), Plain(stored), one);
    QuietAfterwards(n + 1, a, CaptureKind(n), z);
    HiddenAtEnd(command, lines, n, CAPTURE_COUNT, one);
  }

  lemma NothingStored(kind: Kind)
    ensures EMPTY.Of(kind) == []
  {
  }

  lemma HiddenAtEnd(command: Symbols, lines: seq<Line>, n: nat, e: nat, one: Line)
    requires IsTrace(lines, command) && n < e == CAPTURE_COUNT
    requires Quiet(0, n, command) && Moves(lines, n, Line(EMPTY, command), one) && Quiet(n + 1, e, one.text)
    ensures Captured(command) == one
  {
    OneCapture(command, lines, n, e, Line(EMPTY, command), one);
    TraceEnds(command, lines, one);
  }

  lemma Sum(a: string, m: string, z: string)
    ensures var s := a + (m + z);
      && |s| == |a| + |m| + |z|
      && (forall i :: 0 <= i < |a| ==> s[i] == a[i])
      && (forall i :: |a| <= i < |a| + |m| ==> s[i] == m[i - |a|])
      && (forall i :: |a| + |m| <= i < |s| ==> s[i] == z[i - |a| - |m|])
  {
  }

  /** Which character each pass but the first begins with. */
  lemma MatchStarts(n: nat, s: string, i: nat)
    requires 0 < n < CAPTURE_COUNT && i < |s| && MatchEnd(n, s, i).Some?
    ensures s[i] == '$' || s[i] == '<' || s[i] == '>' || s[i] == '`' || s[i] == '"'
    ensures n == 4 ==> s[i] == '<' || s[i] == '>'
    ensures n == 8 ==> s[i] == '`'
    ensures n == 9 ==> s[i] == '"'
    ensures n !in {4, 8, 9} ==> s[i] == '$'
  {
  }

  /** Nothing but plain characters outside the stretch from `p` to `e`. */
  predicate PlainAround(s: string, p: nat, e: nat) {
    p < e <= |s| && (forall i :: 0 <= i < p ==> IsPlainChar(s[i])) && (forall i :: e <= i < |s| ==> IsPlainChar(s[i]))
  }

  lemma AroundIsPlain(a: string, m: string, z: string)
    requires IsPlainText(a) && IsPlainText(z) && m != ""
    ensures PlainAround(a + (m + z), |a|, |a| + |m|)
  {
    Sum(a, m, z);
  }

  lemma OutsideIsQuiet(n: nat, s: string, p: nat, e: nat)
    requires 0 < n < CAPTURE_COUNT && PlainAround(s, p, e)
    ensures forall i :: 0 <= i < p || e <= i < |s| ==> NoMatch(n, s, i)
  {
    forall i | 0 <= i < p || e <= i < |s| ensures NoMatch(n, s, i) {
      if MatchEnd(n, s, i).Some? { MatchStarts(n, s, i); }
    }
  }

  lemma TakesAll(n: nat, a: string, m: string, z: string)
    requires 0 < n < CAPTURE_COUNT && IsPlainText(a) && IsPlainText(z) && m != ""
    requires |a| < |a + (m + z)| && MatchEnd(n, a + (m + z), |a|) == Some(|a| + |m|)
    ensures TakesOne(n, Plain(a + (m + z)), |a|, |a| + |m|)
  {
    AroundIsPlain(a, m, z);
    OutsideIsQuiet(n, a + (m + z), |a|, |a| + |m|);
    assert Outline(Plain(a + (m + z))) == a + (m + z);
  }

  /** The first pass needs a digit before a ">". */
  lemma NoRedirection(s: string)
    requires forall i :: 0 < i < |s| && s[i] == '>' ==> !IsDigit(s[i - 1])
    ensures QuietAt(0, Plain(s))
  {
    assert Outline(Plain(s)) == s;
    forall i | 0 <= i < |s| ensures NoMatch(0, s, i) {
      var d := Stretch(s, i, IsDigit);
      if i < d < |s| { assert IsDigit(s[d - 1]); }
    }
  }

  lemma DecimalIs(c: char)
    ensures IsDigit(c) <==> IsDecimal(c)
  {
    RangeOfDigits(c);
  }

  lemma LetterIs(c: char)
    ensures IsLetter(c) <==> IsSmallLetter(c) || IsCapitalLetter(c) || c == '_'
  {
    RangesOfLetters(c);
  }

  lemma WordCharIs(c: char)
    ensures IsWordChar(c) <==> IsNameChar(c)
  {
    LetterIs(c);
    DecimalIs(c);
  }

  // ---------------------------------------------------------------- a redirection

  /** What ends a redirection's target. */
  predicate EndsTarget(c: char) {
    IsBlank(c) || c == ';' || c == '&' || c == '|' || c == '(' || c == ')'
  }

  lemma TargetIs(c: char)
    ensures IsTarget(c) <==> !EndsTarget(c)
  {
    SpaceIsBlank(c);
  }

  predicate IsOperator(op: string) {
    op == ">" || op == ">>" || op == ">&" || op == ">>&"
  }

  /** Digits, an operator and a target, and behind them the end of the line or what ends a target. */
  predicate IsWrittenRedirection(d: string, op: string, t: string, z: string) {
    && d != "" && (forall i :: 0 <= i < |d| ==> IsDecimal(d[i]))
    && IsOperator(op) && (forall i :: 0 <= i < |t| ==> !EndsTarget(t[i]))
    && (z != "" ==> EndsTarget(z[0]))
    && (z != "" && z[0] == '&' ==> op + t != ">" && op + t != ">>")
  }

  lemma StretchIs(s: string, i: nat, p: char -> bool, e: nat)
    requires i <= e <= |s| && All(s, i, e, p) && (e < |s| ==> !p(s[e]))
    ensures Stretch(s, i, p) == e
  {
    StretchIsLongest(s, i, p, e);
  }

  lemma RedirectionIsMatched(s: string, p: nat, q: nat, e: nat)
    requires p < q < e <= |s| && All(s, p, q, IsDigit) && s[q] == '>'
    requires TargetsFrom(s, q) <= e && All(s, TargetsFrom(s, q), e, IsTarget) && (e < |s| ==> !IsTarget(s[e]))
    ensures MatchEnd(0, s, p) == Some(e)
  {
    DigitsEnd(s, p, q);
    StretchIs(s, TargetsFrom(s, q), IsTarget, e);
  }

  /** Where the target begins behind each operator, told by the text from the first ">" on. */
  lemma TargetBegins(s: string, q: nat, r: string, e: nat)
    requires q + |r| == e <= |s| && r != "" && r[0] == '>' && forall k :: 0 <= k < |r| ==> s[q + k] == r[k]
    requires e < |s| ==> s[e] != '>' && (s[e] == '&' ==> r != ">" && r != ">>")
    ensures TargetsFrom(s, q) == q + (if |r| > 1 && r[1] == '>' then 2 else 1)
                                 + (var k := if |r| > 1 && r[1] == '>' then 2 else 1; if |r| > k && r[k] == '&' then 1 else 0)
  {
    assert |r| > 1 ==> s[q + 1] == r[1];
    assert |r| > 2 ==> s[q + 2] == r[2];
  }

  lemma OperatorAndTarget(op: string, t: string)
    requires IsOperator(op) && forall i :: 0 <= i < |t| ==> !EndsTarget(t[i])
    ensures var r := op + t;
      var k := if |r| > 1 && r[1] == '>' then 2 else 1;
      var n := if |r| > k && r[k] == '&' then k + 1 else k;
      n <= |r| && forall i :: n <= i < |r| ==> IsTarget(r[i])
  {
    var r := op + t;
    forall i | |op| <= i < |r| ensures IsTarget(r[i]) {
      assert r[i] == t[i - |op|];
      TargetIs(r[i]);
    }
    assert forall i :: 0 <= i < |op| ==> r[i] == op[i];
    TargetIs('>');
    if t != "" {
      assert r[|op|] == t[0] && t[0] != '&';
      if |t| > 1 { assert r[|op| + 1] == t[1] && t[1] != '&'; }
    }
  }

  /** A redirection is hidden up to the end of its target, and nothing behind it. */
  lemma RedirectionIsHidden(a: string, d: string, op: string, t: string, z: string)
    requires IsPlainText(a) && IsPlainText(z) && (a != "" ==> !IsDecimal(a[|a| - 1])) && IsWrittenRedirection(d, op, t, z)
    ensures Captured(Plain(a + ((d + (op + t)) + z))) == OneHidden(a, Redirection, d + (op + t), z)
  {
    var m := d + (op + t);
    RedirectionIsTaken(a, d, op, t, z);
    HiddenByPass(0, a, m, z, m);
  }

  lemma RedirectionIsTaken(a: string, d: string, op: string, t: string, z: string)
    requires IsPlainText(a) && IsPlainText(z) && (a != "" ==> !IsDecimal(a[|a| - 1])) && IsWrittenRedirection(d, op, t, z)
    ensures var m := d + (op + t); TakesOne(0, Plain(a + (m + z)), |a|, |a| + |m|)
  {
    var m := d + (op + t);
    var s, p, e := a + (m + z), |a|, |a| + |m|;
    assert Outline(Plain(s)) == s;
    Sum(a, m, z);
    RedirectionMatchesAt(a, d, op, t, z);
    AroundIsPlain(a, m, z);
    NoRedirectionOutside(s, p, e, a, z);
  }

  lemma NoRedirectionOutside(s: string, p: nat, e: nat, a: string, z: string)
    requires PlainAround(s, p, e) && p == |a| && (forall i :: 0 <= i < p ==> s[i] == a[i]) && (a != "" ==> !IsDecimal(a[|a| - 1]))
    ensures forall i :: 0 <= i < p || e <= i < |s| ==> NoMatch(0, s, i)
  {
    if a != "" { DecimalIs(a[|a| - 1]); }
    forall i | 0 <= i < p || e <= i < |s| ensures NoMatch(0, s, i) {
      var d := Stretch(s, i, IsDigit);
      if i < p { StretchStopsBefore(s, i, p); }
    }
  }

  lemma StretchStopsBefore(s: string, i: nat, p: nat)
    requires i < p <= |s| && !IsDigit(s[p - 1])
    ensures Stretch(s, i, IsDigit) < p
  {
  }

  lemma DigitsInFront(a: string, d: string, r: string, z: string)
    requires forall i :: 0 <= i < |d| ==> IsDecimal(d[i])
    ensures var s := a + ((d + r) + z); All(s, |a|, |a| + |d|, IsDigit)
  {
    var s := a + ((d + r) + z);
    Sum(a, d + r, z);
    forall k | |a| <= k < |a| + |d| ensures IsDigit(s[k]) {
      assert s[k] == d[k - |a|];
      DecimalIs(s[k]);
    }
  }

  lemma RestInPlace(a: string, d: string, r: string, z: string)
    ensures var s, q := a + ((d + r) + z), |a| + |d|;
      && (forall k :: 0 <= k < |r| ==> s[q + k] == r[k])
      && q + |r| <= |s| && (q + |r| < |s| ==> z != "" && s[q + |r|] == z[0]) && (z != "" ==> q + |r| < |s|)
  {
    Sum(a, d + r, z);
  }

  lemma TargetsInPlace(s: string, q: nat, op: string, t: string, e: nat)
    requires IsOperator(op) && (forall i :: 0 <= i < |t| ==> !EndsTarget(t[i]))
    requires q + |op + t| == e <= |s| && forall k :: 0 <= k < |op + t| ==> s[q + k] == (op + t)[k]
    requires e < |s| ==> EndsTarget(s[e]) && (s[e] == '&' ==> op + t != ">" && op + t != ">>")
    ensures s[q] == '>' && q < e && TargetsFrom(s, q) <= e && All(s, TargetsFrom(s, q), e, IsTarget) && (e < |s| ==> !IsTarget(s[e]))
  {
    var r := op + t;
    assert r[0] == '>' && s[q + 0] == r[0];
    OperatorAndTarget(op, t);
    TargetBegins(s, q, r, e);
    var from := TargetsFrom(s, q);
    forall k | from <= k < e ensures IsTarget(s[k]) {
      assert s[q + (k - q)] == r[k - q];
    }
    if e < |s| { TargetIs(s[e]); }
  }

  /** The operator and the target stand at `q`, and what ends the target behind them. */
  predicate StandsAt(s: string, q: nat, op: string, t: string, e: nat) {
    && q + |op + t| == e <= |s| && (forall k :: 0 <= k < |op + t| ==> s[q + k] == (op + t)[k])
    && (e < |s| ==> EndsTarget(s[e]) && (s[e] == '&' ==> op + t != ">" && op + t != ">>"))
  }

  lemma RedirectionInPlace(s: string, p: nat, q: nat, op: string, t: string, e: nat)
    requires IsOperator(op) && (forall i :: 0 <= i < |t| ==> !EndsTarget(t[i])) && StandsAt(s, q, op, t, e)
    requires p < q && All(s, p, q, IsDigit)
    ensures MatchEnd(0, s, p) == Some(e)
  {
    TargetsInPlace(s, q, op, t, e);
    RedirectionIsMatched(s, p, q, e);
  }

  lemma RedirectionStands(a: string, d: string, op: string, t: string, z: string)
    requires IsWrittenRedirection(d, op, t, z)
    ensures StandsAt(a + ((d + (op + t)) + z), |a| + |d|, op, t, |a| + |d + (op + t)|)
  {
    RestInPlace(a, d, op + t, z);
  }

  lemma RedirectionMatchesAt(a: string, d: string, op: string, t: string, z: string)
    requires IsWrittenRedirection(d, op, t, z)
    ensures var m := d + (op + t); |a| < |a + (m + z)| && MatchEnd(0, a + (m + z), |a|) == Some(|a| + |m|)
  {
    var m := d + (op + t);
    DigitsInFront(a, d, op + t, z);
    RedirectionStands(a, d, op, t, z);
    RedirectionInPlace(a + (m + z), |a|, |a| + |d|, op, t, |a| + |m|);
  }

  // ---------------------------------------------------------------- things that begin with a dollar sign

  lemma DollarLine(a: string, r: string, z: string)
    requires IsPlainText(a) && IsPlainText(r) && IsPlainText(z) && r != ""
    ensures var s := a + (("$" + r) + z); OnlyDollar(s, |a|) && s[|a| + 1] == r[0] && (|r| > 1 ==> s[|a| + 2] == r[1])
  {
    Sum(a, "$" + r, z);
    assert forall i :: 0 < i < |r| + 1 ==> ("$" + r)[i] == r[i - 1];
  }

  /** No pass before `n` matches at the only dollar sign. */
  lemma QuietUntil(n: nat, text: Symbols, p: nat)
    requires n <= 7 && OnlyDollar(Outline(text), p) && forall k :: 0 < k < n ==> NoMatch(k, Outline(text), p)
    ensures Quiet(0, n, text)
  {
    var s := Outline(text);
    forall k, i | 0 <= k < n && 0 <= i < |text| ensures NoMatch(k, s, i) {
      MatchBegins(k, s, i);
    }
    AllQuiet(0, n, text);
  }

  lemma NotBefore(n: nat, s: string, p: nat)
    requires n <= 7 && p + 1 < |s| && s[p] == '$'
    requires n > 1 ==> s[p + 1] != '(' || p + 2 == |s| || s[p + 2] != '('
    requires n > 2 ==> s[p + 1] != '['
    requires n > 3 ==> s[p + 1] != '{'
    requires n > 5 ==> !IsLetter(s[p + 1])
    requires n > 6 ==> !IsSpecial(s[p + 1])
    ensures forall k :: 0 < k < n ==> NoMatch(k, s, p)
  {
    forall k | 0 < k < n ensures NoMatch(k, s, p) {
      if MatchEnd(k, s, p).Some? { DollarThen(k, s, p); }
    }
  }

  lemma HiddenDollar(n: nat, a: string, r: string, z: string, stored: string)
    requires 0 < n <= 7 && IsPlainText(a) && IsPlainText(r) && IsPlainText(z) && r != ""
    requires var s := a + (("$" + r) + z);
      && |a| + 1 < |s| && MatchEnd(n, s, |a|) == Some(|a| + 1 + |r|) && forall k :: 0 < k < n ==> NoMatch(k, s, |a|)
    requires 1 + |r| > Width(n) ==> StoredFor(n, Plain("$" + r)) == Plain(stored)
    ensures Captured(Plain(a + (("$" + r) + z))) == OneHidden(a, CaptureKind(n), stored, z)
  {
    var s := a + (("$" + r) + z);
    assert Outline(Plain(s)) == s;
    DollarLine(a, r, z);
    QuietUntil(n, Plain(s), |a|);
    TakesAll(n, a, "$" + r, z);
    HiddenByPass(n, a, "$" + r, z, stored);
  }

  // ---------------------------------------------------------------- a variable

  predicate IsWrittenName(v: string) {
    v != "" && !IsDecimal(v[0]) && forall i :: 0 <= i < |v| ==> IsNameChar(v[i])
  }

  lemma NameIs(v: string)
    requires IsWrittenName(v)
    ensures IsName(v) && IsPlainText(v)
  {
    LetterIs(v[0]);
    forall i | 0 <= i < |v| ensures IsWordChar(v[i]) && IsPlainChar(v[i]) {
      WordCharIs(v[i]);
    }
  }

  /** A variable is hidden up to the end of its name, which may have letters of both cases, digits and underscores. */
  lemma VariableIsHidden(a: string, v: string, z: string)
    requires IsPlainText(a) && IsPlainText(z) && IsWrittenName(v) && (z != "" ==> !IsNameChar(z[0]))
    ensures Captured(Plain(a + (("$" + v) + z))) == OneHidden(a, Variable, "$" + v, z)
  {
    var s := a + (("$" + v) + z);
    NameIs(v);
    if z != "" { WordCharIs(z[0]); }
    Sum(a, "$" + v, z);
    assert s[|a| + 1..] == v + z;
    NameEnds(s, |a|, v, z);
    DollarLine(a, v, z);
    NotBefore(5, s, |a|);
    HiddenDollar(5, a, v, z, "$" + v);
  }

  predicate IsWrittenSpecial(c: char) {
    c == '?' || c == '!' || c == '#' || c == '@' || c == '*' || c == '-' || IsDecimal(c)
  }

  lemma SpecialIs(c: char)
    ensures IsSpecial(c) <==> IsWrittenSpecial(c) || c == '$'
  {
    DecimalIs(c);
  }

  lemma SpecialIsOther(c: char)
    requires IsWrittenSpecial(c)
    ensures IsPlainChar(c) && !IsLetter(c) && c != '(' && c != '[' && c != '{'
  {
    LetterIs(c);
  }

  /** A special variable is hidden with its one character. */
  lemma SpecialVariableIsHidden(a: string, c: char, z: string)
    requires IsPlainText(a) && IsPlainText(z) && IsWrittenSpecial(c)
    ensures Captured(Plain(a + (("$" + [c]) + z))) == OneHidden(a, Variable, "$" + [c], z)
  {
    var s := a + (("$" + [c]) + z);
    SpecialIs(c);
    SpecialIsOther(c);
    DollarLine(a, [c], z);
    NotBefore(6, s, |a|);
    HiddenDollar(6, a, [c], z, "$" + [c]);
  }

  /** What a second dollar sign would begin something with. */
  predicate GoesOn(c: char) {
    IsSmallLetter(c) || IsCapitalLetter(c) || c == '_' || c == '(' || c == '[' || c == '{'
  }

  /** So are two dollar signs, if the second begins nothing else. */
  lemma ProcessIdIsHidden(a: string, z: string)
    requires IsPlainText(a) && IsPlainText(z) && (z != "" ==> !GoesOn(z[0]))
    ensures Captured(Plain(a + ("$$" + z))) == OneHidden(a, Variable, "$$", z)
  {
    var s := a + ("$$" + z);
    if z != "" { LetterIs(z[0]); }
    TwoDollarsQuiet(a, z);
    Sum(a, "$$", z);
    TakesAll(6, a, "$$", z);
    HiddenByPass(6, a, "$$", z, "$$");
  }

  lemma TwoDollarsQuiet(a: string, z: string)
    requires IsPlainText(a) && IsPlainText(z) && (z != "" ==> !GoesOn(z[0]))
    ensures Quiet(0, 6, Plain(a + ("$$" + z)))
  {
    var s, p := a + ("$$" + z), |a|;
    assert Outline(Plain(s)) == s;
    Sum(a, "$$", z);
    if z != "" { LetterIs(z[0]); }
    forall k, i | 0 <= k < 6 && 0 <= i < |s| ensures NoMatch(k, s, i) {
      MatchBegins(k, s, i);
      if MatchEnd(k, s, i).Some? { DollarThen(k, s, i); }
    }
    AllQuiet(0, 6, Plain(s));
  }

  // ---------------------------------------------------------------- brackets and braces

  predicate LacksChar(s: string, c: char) {
    forall i :: 0 <= i < |s| ==> s[i] != c
  }

  lemma ClosesFirst(s: string, p: nat, width: nat, least: nat, close: char, e: string)
    requires p + width + |e| < |s| && |e| >= least && width > 0 && LacksChar(e, close)
    requires (forall k :: 0 <= k < |e| ==> s[p + width + k] == e[k]) && s[p + width + |e|] == close
    ensures FirstClose(s, p + width, least, close) == Some(p + width + |e| + 1)
  {
    forall k | p + width <= k < p + width + |e| ensures s[k] != close {
      assert s[p + width + (k - p - width)] == e[k - p - width];
    }
    FirstCloseEncloses(s, p, width, least, close, p + width + |e| + 1);
  }

  lemma InPlace(a: string, open: string, e: string, close: string, z: string)
    ensures var s := a + ((open + (e + close)) + z);
      && |s| == |a| + |open| + |e| + |close| + |z|
      && (forall k :: 0 <= k < |open| ==> s[|a| + k] == open[k])
      && (forall k :: 0 <= k < |e| ==> s[|a| + |open| + k] == e[k])
      && (forall k :: 0 <= k < |close| ==> s[|a| + |open| + |e| + k] == close[k])
  {
    Sum(a, open + (e + close), z);
  }

  lemma BracketsMatch(a: string, e: string, z: string)
    requires LacksChar(e, ']')
    ensures var s := a + (("$[" + (e + "]")) + z); |a| < |s| && MatchEnd(2, s, |a|) == Some(|a| + 3 + |e|)
  {
    var s := a + (("$[" + (e + "]")) + z);
    InPlace(a, "$[", e, "]", z);
    ClosesFirst(s, |a|, 2, 0, ']', e);
  }

  /** Arithmetic in brackets is hidden up to the first closing one. */
  lemma BracketsAreHidden(a: string, e: string, z: string)
    requires IsPlainText(a) && IsPlainText(e) && IsPlainText(z) && LacksChar(e, ']')
    ensures Captured(Plain(a + (("$[" + (e + "]")) + z))) == OneHidden(a, Arithmetic, "$[" + (e + "]"), z)
  {
    var r := "[" + (e + "]");
    assert "$[" + (e + "]") == "$" + r;
    BracketsMatch(a, e, z);
    DollarLine(a, r, z);
    NotBefore(2, a + (("$" + r) + z), |a|);
    HiddenDollar(2, a, r, z, "$[" + (e + "]"));
  }

  lemma BracesMatch(a: string, e: string, z: string)
    requires LacksChar(e, '}') && e != ""
    ensures var s := a + (("${" + (e + "}")) + z); |a| < |s| && MatchEnd(3, s, |a|) == Some(|a| + 3 + |e|)
  {
    var s := a + (("${" + (e + "}")) + z);
    InPlace(a, "${", e, "}", z);
    ClosesFirst(s, |a|, 2, 1, '}', e);
  }

  /** A parameter expansion is hidden up to the first closing brace, if there is something in it. */
  lemma BracesAreHidden(a: string, e: string, z: string)
    requires IsPlainText(a) && IsPlainText(e) && IsPlainText(z) && LacksChar(e, '}') && e != ""
    ensures Captured(Plain(a + (("${" + (e + "}")) + z))) == OneHidden(a, Parameter, "${" + (e + "}"), z)
  {
    var r := "{" + (e + "}");
    assert "${" + (e + "}") == "$" + r;
    BracesMatch(a, e, z);
    DollarLine(a, r, z);
    NotBefore(3, a + (("$" + r) + z), |a|);
    HiddenDollar(3, a, r, z, "${" + (e + "}"));
  }

  // ---------------------------------------------------------------- double parentheses

  lemma LastPair(s: string, at: nat, n: nat)
    requires OpensArithmetic(s, at) && at + 5 + n <= |s| && Pair(s, at + 3 + n, ')', ')')
    requires forall k :: at + 3 + n < k < |s| ==> !Pair(s, k, ')', ')')
    ensures MatchEnd(1, s, at) == Some(at + 5 + n)
  {
    var end := LastClose(s, at + 3);
    assert end.Some? && at + 5 + n <= end.value;
    assert Pair(s, end.value - 2, ')', ')');
  }

  /** No two closing parentheses together, and none at the beginning. */
  predicate ClosesNoMore(z: string) {
    (z != "" ==> z[0] != ')') && forall k :: 0 <= k < |z| - 1 ==> !Pair(z, k, ')', ')')
  }

  lemma NoLaterPair(a: string, e: string, z: string)
    requires ClosesNoMore(z)
    ensures var s, at := a + (("$((" + (e + "))")) + z), |a|;
      && OpensArithmetic(s, at) && at + 5 + |e| <= |s| && Pair(s, at + 3 + |e|, ')', ')')
      && forall k :: at + 3 + |e| < k < |s| ==> !Pair(s, k, ')', ')')
  {
    var m := "$((" + (e + "))");
    var s, at := a + (m + z), |a|;
    Sum(a, m, z);
    assert m[|e| + 3] == ')' && m[|e| + 4] == ')';
    forall k | at + 3 + |e| < k < |s| ensures !Pair(s, k, ')', ')') {
      if k == at + 4 + |e| {
        if z != "" { assert s[k + 1] == z[0]; }
      } else if k < |s| - 1 {
        var j := k - at - 5 - |e|;
        assert s[k] == z[j] && s[k + 1] == z[j + 1] && !Pair(z, j, ')', ')');
      }
    }
  }

  /** An arithmetic expansion is hidden up to the last two closing parentheses of the line, whatever comes before them. */
  lemma ArithmeticIsHidden(a: string, e: string, z: string)
    requires IsPlainText(a) && IsPlainText(z) && ClosesNoMore(z) && LacksChar(e, '>')
    ensures Captured(Plain(a + (("$((" + (e + "))")) + z))) == OneHidden(a, Arithmetic, "$((" + (e + "))"), z)
  {
    var m := "$((" + (e + "))");
    NoLaterPair(a, e, z);
    LastPair(a + (m + z), |a|, |e|);
    TakesAll(1, a, m, z);
    NoAngleInside(a, e, z);
    HiddenByPass(1, a, m, z, m);
  }

  lemma NoAngleInside(a: string, e: string, z: string)
    requires IsPlainText(a) && IsPlainText(z) && LacksChar(e, '>')
    ensures Quiet(0, 1, Plain(a + (("$((" + (e + "))")) + z)))
  {
    var s := a + (("$((" + (e + "))")) + z);
    InPlace(a, "$((", e, "))", z);
    Sum(a, "$((" + (e + "))"), z);
    NoRedirection(s);
    OneQuiet(0, Plain(s));
  }

  // ---------------------------------------------------------------- bodies, which are trimmed

  lemma {:induction false} TrimStartOfPlain(t: string)
    ensures TrimStartOf(Plain(t)) == Plain(TrimStart(t))
  {
    if t != "" {
      assert Plain(t)[1..] == Plain(t[1..]);
      TrimStartOfPlain(t[1..]);
    }
  }

  lemma {:induction false} TrimEndOfPlain(t: string)
    ensures TrimEndOf(Plain(t)) == Plain(TrimEnd(t))
  {
    if t != "" {
      assert Plain(t)[..|t| - 1] == Plain(t[..|t| - 1]);
      TrimEndOfPlain(t[..|t| - 1]);
    }
  }

  predicate IsTrimmed(t: string) {
    t != "" ==> !IsBlank(t[0]) && !IsBlank(t[|t| - 1])
  }

  /** What is stored of a body: the text without the blanks at its ends. */
  lemma StoredBody(n: nat, open: string, b: string, t: string, c: string, close: string)
    requires n < CAPTURE_COUNT && Width(n) > 0 && |open| == Width(n) && |close| == 1 && AllBlank(b) && AllBlank(c) && IsTrimmed(t)
    ensures StoredFor(n, Plain(open + ((b + (t + c)) + close))) == Plain(t)
  {
    var inner := b + (t + c);
    var m := Plain(open + (inner + close));
    assert m[Width(n)..|m| - 1] == Plain(inner);
    TrimStartOfPlain(inner);
    TrimEndOfPlain(TrimStart(inner));
    TrimTakesBlanks(b, t, c);
  }

  /** A body with blanks around it. */
  predicate IsBody(b: string, t: string, c: string) {
    AllBlank(b) && AllBlank(c) && IsTrimmed(t) && IsPlainText(t)
  }

  lemma BodyIsPlain(b: string, t: string, c: string)
    requires IsBody(b, t, c)
    ensures IsPlainText(b + (t + c))
  {
  }

  /** Without parentheses, quotes and backslashes, all plain. */
  predicate IsSimple(s: string) {
    forall i :: 0 <= i < |s| ==> Calm(s[i])
  }

  /** A command substitution is hidden, and its body stored without the blanks at its ends. */
  lemma SubstitutionIsHidden(a: string, b: string, t: string, c: string, z: string)
    requires IsPlainText(a) && IsPlainText(z) && IsBody(b, t, c) && IsSimple(t)
    ensures Captured(Plain(a + (("$(" + ((b + (t + c)) + ")")) + z))) == OneHidden(a, Subshell, t, z)
  {
    var e := b + (t + c);
    var r := "(" + (e + ")");
    assert "$(" + (e + ")") == "$" + r;
    BodyIsPlain(b, t, c);
    SimpleBody(b, t, c);
    SubstitutionMatch(a, e, z);
    DollarLine(a, r, z);
    NotBefore(7, a + (("$" + r) + z), |a|);
    StoredBody(7, "$(", b, t, c, ")");
    HiddenDollar(7, a, r, z, t);
  }

  lemma SimpleBody(b: string, t: string, c: string)
    requires AllBlank(b) && AllBlank(c) && IsSimple(t)
    ensures IsSimple(b + (t + c)) && (b + (t + c) + ")")[0] != '(' && (b + (t + c) + ")")[0] != '$'
  {
    var e := b + (t + c);
    forall i | 0 <= i < |e| ensures Calm(e[i]) {
      if i < |b| { assert IsBlank(b[i]); }
      if i >= |b| + |t| { assert IsBlank(c[i - |b| - |t|]); }
    }
    if e != "" { assert Calm(e[0]); }
  }

  lemma SubstitutionMatch(a: string, e: string, z: string)
    requires IsSimple(e)
    ensures var s := a + (("$(" + (e + ")")) + z); |a| < |s| && MatchEnd(7, s, |a|) == Some(|a| + 3 + |e|)
  {
    var s, p := a + (("$(" + (e + ")")) + z), |a|;
    InPlace(a, "$(", e, ")", z);
    assert s[p + 0] == '$' && s[p + 1] == '(' && s[p + 2 + |e| + 0] == ')';
    forall i | p + 2 <= i < p + 2 + |e| ensures Calm(s[i]) {
      assert s[p + 2 + (i - p - 2)] == e[i - p - 2];
    }
    BodyEnds(s, p + 2, p + 2 + |e|);
  }

  // ---------------------------------------------------------------- things that begin otherwise

  /** Passes before `n` need a dollar sign, an angle bracket or a back-tick, none of which is there. */
  predicate NothingFor(n: nat, s: string) {
    forall i :: 0 <= i < |s| ==> s[i] != '$' && (n > 4 ==> s[i] != '<' && s[i] != '>') && (n > 8 ==> s[i] != '`')
  }

  lemma QuietBefore(n: nat, s: string)
    requires n < CAPTURE_COUNT && n in {4, 8, 9} && NothingFor(n, s)
    requires forall i :: 0 < i < |s| && s[i] == '>' ==> !IsDigit(s[i - 1])
    ensures Quiet(0, n, Plain(s))
  {
    assert Outline(Plain(s)) == s;
    NoRedirection(s);
    forall k, i | 0 <= k < n && 0 <= i < |s| ensures NoMatch(k, s, i) {
      if k > 0 && MatchEnd(k, s, i).Some? { MatchStarts(k, s, i); }
    }
    AllQuiet(0, n, Plain(s));
  }

  lemma PlainHasNothing(n: nat, a: string, m: string, z: string)
    requires n in {4, 8, 9} && IsPlainText(a) && NothingFor(n, m) && IsPlainText(z)
    ensures NothingFor(n, a + (m + z))
  {
  }

  /** A process substitution, to read or to write, is hidden as one, and its body stored without the blanks at its ends. */
  lemma ProcessSubstitutionIsHidden(a: string, angle: char, b: string, t: string, c: string, z: string)
    requires IsPlainText(a) && IsPlainText(z) && IsBody(b, t, c) && LacksChar(t, ')') && b + (t + c) != ""
    requires angle == '<' || (angle == '>' && (a != "" ==> !IsDecimal(a[|a| - 1])))
    ensures Captured(Plain(a + (([angle, '('] + ((b + (t + c)) + ")")) + z))) == OneHidden(a, Subshell, t, z)
  {
    var e := b + (t + c);
    var m := [angle, '('] + (e + ")");
    BodyIsPlain(b, t, c);
    BodyLacks(b, t, c, ')');
    ProcessMatch(a, angle, e, z);
    TakesAll(4, a, m, z);
    PlainHasNothing(4, a, m, z);
    OneAngle(a, angle, e, z);
    QuietBefore(4, a + (m + z));
    StoredBody(4, [angle, '('], b, t, c, ")");
    HiddenByPass(4, a, m, z, t);
  }

  lemma BodyLacks(b: string, t: string, c: string, x: char)
    requires AllBlank(b) && AllBlank(c) && LacksChar(t, x) && !IsBlank(x)
    ensures LacksChar(b + (t + c), x)
  {
  }

  lemma ProcessMatch(a: string, angle: char, e: string, z: string)
    requires (angle == '<' || angle == '>') && LacksChar(e, ')') && e != ""
    ensures var s := a + (([angle, '('] + (e + ")")) + z); |a| < |s| && MatchEnd(4, s, |a|) == Some(|a| + 3 + |e|)
  {
    var s := a + (([angle, '('] + (e + ")")) + z);
    InPlace(a, [angle, '('], e, ")", z);
    assert s[|a| + 0] == angle && s[|a| + 1] == '(' && s[|a| + 2 + |e| + 0] == ')';
    ClosesFirst(s, |a|, 2, 1, ')', e);
  }

  lemma OneAngle(a: string, angle: char, e: string, z: string)
    requires IsPlainText(a) && IsPlainText(e) && IsPlainText(z) && (angle == '<' || angle == '>')
    requires angle == '>' && a != "" ==> !IsDecimal(a[|a| - 1])
    ensures var s := a + (([angle, '('] + (e + ")")) + z); forall i :: 0 < i < |s| && s[i] == '>' ==> !IsDigit(s[i - 1])
  {
    var m := [angle, '('] + (e + ")");
    Sum(a, m, z);
    if a != "" { DecimalIs(a[|a| - 1]); }
  }

  /** Back-ticks are hidden with what is between them on the line, which is stored without the blanks at its ends. */
  lemma BacktickIsHidden(a: string, b: string, t: string, c: string, z: string)
    requires IsPlainText(a) && IsPlainText(z) && IsBody(b, t, c) && LacksTerminators(b + (t + c))
    ensures Captured(Plain(a + (("`" + ((b + (t + c)) + "`")) + z))) == OneHidden(a, Subshell, t, z)
  {
    var e := b + (t + c);
    var m := "`" + (e + "`");
    BodyIsPlain(b, t, c);
    BacktickMatch(a, e, z);
    TakesAll(8, a, m, z);
    PlainHasNothing(8, a, m, z);
    QuietBefore(8, a + (m + z));
    StoredBody(8, "`", b, t, c, "`");
    HiddenByPass(8, a, m, z, t);
  }

  lemma BacktickMatch(a: string, e: string, z: string)
    requires IsPlainText(e) && LacksTerminators(e)
    ensures var s := a + (("`" + (e + "`")) + z); |a| < |s| && MatchEnd(8, s, |a|) == Some(|a| + 2 + |e|)
  {
    var s, p := a + (("`" + (e + "`")) + z), |a|;
    InPlace(a, "`", e, "`", z);
    assert s[p + 0] == '`' && s[p + 1 + |e| + 0] == '`';
    ClosesFirst(s, p, 1, 0, '`', e);
    NoTerminatorInside(s, p, e);
    TicksMatch(8, s, p, p + 1 + |e|);
  }

  lemma NoTerminatorInside(s: string, p: nat, e: string)
    requires p + 1 + |e| < |s| && s[p] == '`' && (forall k :: 0 <= k < |e| ==> s[p + 1 + k] == e[k])
    requires IsPlainText(e) && LacksTerminators(e)
    ensures All(s, p, p + 1 + |e|, IsNoTerminator) && Lacks(s, p + 1, p + 1 + |e|, '`')
  {
    forall i | p < i < p + 1 + |e| ensures IsNoTerminator(s[i]) && s[i] != '`' {
      assert s[p + 1 + (i - p - 1)] == e[i - p - 1];
    }
  }

  lemma TicksMatch(n: nat, s: string, p: nat, q: nat)
    requires n == 8 && p < q < |s| && s[p] == '`' && s[q] == '`' && Lacks(s, p + 1, q, '`')
    requires All(s, p, q, IsNoTerminator) && FirstClose(s, p + 1, 0, '`') == Some(q + 1)
    ensures MatchEnd(n, s, p) == Some(q + 1)
  {
    UntilIs(s, p + 1, '`', q);
  }

  lemma UntilIs(s: string, i: nat, c: char, q: nat)
    requires i <= q < |s| && s[q] == c && Lacks(s, i, q, c)
    ensures Until(s, i, c) == q
  {
  }

  /** A double-quoted text is hidden up to the next double quote. */
  lemma QuotedIsHidden(a: string, e: string, z: string)
    requires IsPlainText(a) && IsPlainText(e) && IsPlainText(z)
    ensures Captured(Plain(a + (("\"" + (e + "\"")) + z))) == OneHidden(a, Quote, "\"" + (e + "\""), z)
  {
    var m := "\"" + (e + "\"");
    QuotedMatch(a, e, z);
    TakesAll(9, a, m, z);
    PlainHasNothing(9, a, m, z);
    QuietBefore(9, a + (m + z));
    HiddenByPass(9, a, m, z, m);
  }

  lemma QuotedMatch(a: string, e: string, z: string)
    requires IsPlainText(e)
    ensures var s := a + (("\"" + (e + "\"")) + z); |a| < |s| && MatchEnd(9, s, |a|) == Some(|a| + 2 + |e|)
  {
    var s, p := a + (("\"" + (e + "\"")) + z), |a|;
    InPlace(a, "\"", e, "\"", z);
    assert s[p + 0] == '"' && s[p + 1 + |e| + 0] == '"';
    ClosesFirst(s, p, 1, 0, '"', e);
  }
}
