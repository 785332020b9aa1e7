/**
 * What the ten passes leave in a line: openings that are not closed, empty ones, and
 * signs that begin nothing (src/shared/parse-command.ts, lines 155-218).
 */
module StayingLines {
  import opened Text
  import opened Characters
  import opened Placeholders
  import opened CaptureOrder
  import opened LinePasses
  import opened LostFragments
  import opened WrittenLines

  // ---------------------------------------------------------------- nothing matches

  /** No pass but the first matches here. */
  predicate Inert(s: string, p: nat)
    requires p < |s|
  {
    forall k :: 0 < k < CAPTURE_COUNT ==> NoMatch(k, s, p)
  }

  predicate DigitsKeepAway(s: string) {
    forall i :: 0 < i < |s| && s[i] == '>' ==> !IsDecimal(s[i - 1])
  }

  lemma InertStays(s: string)
    requires DigitsKeepAway(s) && forall i :: 0 <= i < |s| ==> IsPlainChar(s[i]) || Inert(s, i)
    ensures Captured(Plain(s)) == Line(EMPTY, Plain(s))
  {
    assert Outline(Plain(s)) == s;
    forall i | 0 < i < |s| && s[i] == '>' ensures !IsDigit(s[i - 1]) { DecimalIs(s[i - 1]); }
    NoRedirection(s);
    forall k, i | 0 <= k < CAPTURE_COUNT && 0 <= i < |s| ensures NoMatch(k, s, i) {
      if k > 0 && IsPlainChar(s[i]) && MatchEnd(k, s, i).Some? { MatchStarts(k, s, i); }
    }
    AllQuiet(0, CAPTURE_COUNT, Plain(s));
    StaysToTheEnd(Plain(s), CAPTURE_COUNT, Line(EMPTY, Plain(s)));
  }

  lemma OneInertStays(s: string, p: nat)
    requires p < |s| && Inert(s, p) && forall i :: 0 <= i < |s| && i != p ==> IsPlainChar(s[i])
    requires s[p] == '>' && p > 0 ==> !IsDecimal(s[p - 1])
    ensures Captured(Plain(s)) == Line(EMPTY, Plain(s))
  {
    InertStays(s);
  }

  lemma EndIsParenthesis(s: string, start: nat, e: nat)
    requires Substitutions.IsEnd(s, start, e)
    ensures start <= e < |s| && s[e] == ')'
  {
  }

  function ClosingOf(k: nat): char {
    if k == 1 || k == 4 || k == 7 then ')' else if k == 2 then ']' else if k == 3 then '}' else if k == 8 then '`' else '"'
  }

  /** What a match closes with, and that there is something inside where it must be. */
  lemma MatchCloses(k: nat, s: string, p: nat)
    requires 0 < k < CAPTURE_COUNT && k != 5 && k != 6 && p < |s| && MatchEnd(k, s, p).Some?
    ensures var e := MatchEnd(k, s, p).value; p + 1 < e <= |s| && s[e - 1] == ClosingOf(k)
    ensures k == 1 || k == 2 || k == 3 || k == 4 || k == 7 ==> p + 2 < MatchEnd(k, s, p).value
    ensures k == 3 || k == 4 ==> s[p + 2] != ClosingOf(k)
  {
    var e := MatchEnd(k, s, p).value;
    MatchIsLongest(k, s, p);
    if k == 7 { EndIsParenthesis(s, p + 2, e - 1); }
  }

  // ---------------------------------------------------------------- after a dollar sign

  /** What a dollar sign is followed by if nothing begins there. */
  predicate BeginsNothing(s: string, p: nat) {
    p < |s| && s[p] == '$' &&
    (p + 1 == |s|
     || !(IsNameChar(s[p + 1]) || IsWrittenSpecial(s[p + 1]) || s[p + 1] == '$' || s[p + 1] == '(' || s[p + 1] == '[' || s[p + 1] == '{')
     || (s[p + 1] == '[' && forall i :: p + 2 <= i < |s| ==> s[i] != ']')
     || (s[p + 1] == '{' && ((forall i :: p + 2 <= i < |s| ==> s[i] != '}') || (p + 2 < |s| && s[p + 2] == '}')))
     || (s[p + 1] == '(' && forall i :: p + 2 <= i < |s| ==> s[i] != ')'))
  }

  lemma DollarIsInert(s: string, p: nat)
    requires BeginsNothing(s, p)
    ensures Inert(s, p)
  {
    if p + 1 < |s| {
      LetterIs(s[p + 1]);
      SpecialIs(s[p + 1]);
    }
    forall k | 0 < k < CAPTURE_COUNT ensures NoMatch(k, s, p) {
      if MatchEnd(k, s, p).Some? { DollarMatches(k, s, p); }
    }
  }

  lemma DollarMatches(k: nat, s: string, p: nat)
    requires 0 < k < CAPTURE_COUNT && p < |s| && s[p] == '$' && MatchEnd(k, s, p).Some?
    ensures p + 1 < |s| && (IsLetter(s[p + 1]) || IsSpecial(s[p + 1]) || s[p + 1] == '(' || s[p + 1] == '[' || s[p + 1] == '{')
    ensures s[p + 1] == '(' ==> exists i :: p + 2 <= i < |s| && s[i] == ')'
    ensures s[p + 1] == '[' ==> exists i :: p + 2 <= i < |s| && s[i] == ']'
    ensures s[p + 1] == '{' ==> (exists i :: p + 2 <= i < |s| && s[i] == '}') && p + 2 < |s| && s[p + 2] != '}'
  {
    MatchStarts(k, s, p);
    if k != 7 { DollarThen(k, s, p); }
    if k != 5 && k != 6 { MatchCloses(k, s, p); }
  }

  // ---------------------------------------------------------------- the laws

  /** A dollar sign stays where nothing that may follow it does. */
  lemma LoneDollarStays(a: string, z: string)
    requires IsPlainText(a) && IsPlainText(z)
    requires z != "" ==> !IsNameChar(z[0]) && !IsWrittenSpecial(z[0]) && z[0] != '(' && z[0] != '[' && z[0] != '{'
    ensures var s := a + ("$" + z); Captured(Plain(s)) == Line(EMPTY, Plain(s))
  {
    var s := a + ("$" + z);
    Sum(a, "$", z);
    DollarIsInert(s, |a|);
    OneInertStays(s, |a|);
  }

  predicate LeavesOpen(open: string, e: string) {
    || (open == "$[" && LacksChar(e, ']')) || (open == "${" && LacksChar(e, '}')) || (open == "$(" && LacksChar(e, ')'))
    || ((open == "<(" || open == ">(") && LacksChar(e, ')')) || open == "`" || open == "\""
  }

  /** An opening that is never closed stays. */
  lemma UnclosedStays(a: string, open: string, e: string)
    requires IsPlainText(a) && IsPlainText(e) && LeavesOpen(open, e)
    requires open == ">(" && a != "" ==> !IsDecimal(a[|a| - 1])
    ensures var s := a + (open + e); Captured(Plain(s)) == Line(EMPTY, Plain(s))
  {
    var s := a + (open + e);
    Sum(a, open, e);
    if open[0] == '$' {
      OpenDollar(a, open, e);
      DollarIsInert(s, |a|);
    } else {
      OtherIsInert(s, |a|);
    }
    OneInertStays(s, |a|);
  }

  lemma OpenDollar(a: string, open: string, e: string)
    requires LeavesOpen(open, e) && open[0] == '$'
    ensures BeginsNothing(a + (open + e), |a|)
  {
    Sum(a, open, e);
  }

  /** An angle bracket, back-tick or quote that is not closed, or closed at once where that is not allowed. */
  lemma OtherIsInert(s: string, p: nat)
    requires p < |s| && (s[p] == '<' || s[p] == '>' || s[p] == '`' || s[p] == '"')
    requires s[p] == '<' || s[p] == '>' ==>
      p + 1 == |s| || s[p + 1] != '(' || (forall i :: p + 2 <= i < |s| ==> s[i] != ')') || (p + 2 < |s| && s[p + 2] == ')')
    requires s[p] == '`' || s[p] == '"' ==> forall i :: p + 1 <= i < |s| ==> s[i] != s[p]
    ensures Inert(s, p)
  {
    forall k | 0 < k < CAPTURE_COUNT ensures NoMatch(k, s, p) {
      if MatchEnd(k, s, p).Some? {
        MatchStarts(k, s, p);
        MatchCloses(k, s, p);
      }
    }
  }

  /** So does one that has nothing inside, where something is asked for. */
  lemma EmptyStays(a: string, empty: string, z: string)
    requires IsPlainText(a) && IsPlainText(z) && (empty == "${}" || empty == "<()" || empty == ">()")
    requires empty == ">()" && a != "" ==> !IsDecimal(a[|a| - 1])
    ensures var s := a + (empty + z); Captured(Plain(s)) == Line(EMPTY, Plain(s))
  {
    var s := a + (empty + z);
    Sum(a, empty, z);
    if empty[0] == '$' {
      DollarIsInert(s, |a|);
    } else {
      OtherIsInert(s, |a|);
    }
    OneInertStays(s, |a|);
  }

  /** An angle bracket without digits before it and a parenthesis behind it stays. */
  lemma LoneAngleStays(a: string, angle: char, z: string)
    requires IsPlainText(a) && IsPlainText(z) && (angle == '<' || angle == '>') && (z != "" ==> z[0] != '(')
    requires angle == '>' && a != "" ==> !IsDecimal(a[|a| - 1])
    ensures var s := a + ([angle] + z); Captured(Plain(s)) == Line(EMPTY, Plain(s))
  {
    var s := a + ([angle] + z);
    Sum(a, [angle], z);
    OtherIsInert(s, |a|);
    OneInertStays(s, |a|);
  }

  /** Back-ticks with a line terminator between them stay. */
  lemma BackticksAcrossLinesStay(a: string, e: string, z: string)
    requires IsPlainText(a) && IsPlainText(e) && IsPlainText(z) && !LacksTerminators(e)
    ensures var s := a + (("`" + (e + "`")) + z); Captured(Plain(s)) == Line(EMPTY, Plain(s))
  {
    var s := a + (("`" + (e + "`")) + z);
    TicksInPlace(a, e, z);
    var t :| 0 <= t < |e| && (e[t] == '\n' || e[t] == '\r' || e[t] == '\U{2028}' || e[t] == '\U{2029}');
    TwoTicksStay(s, |a|, |a| + 1 + t, |a| + 1 + |e|);
  }

  lemma TicksInPlace(a: string, e: string, z: string)
    requires IsPlainText(a) && IsPlainText(e) && IsPlainText(z)
    ensures var s, p := a + (("`" + (e + "`")) + z), |a|;
      && p + 1 + |e| < |s| && s[p] == '`' && s[p + 1 + |e|] == '`' && (forall k :: 0 <= k < |e| ==> s[p + 1 + k] == e[k])
      && (forall i :: 0 <= i < |s| && i != p && i != p + 1 + |e| ==> IsPlainChar(s[i]))
  {
    Sum(a, "`" + (e + "`"), z);
    Sum("`", e, "`");
  }

  lemma TwoTicksStay(s: string, p: nat, t: nat, q: nat)
    requires p < t < q < |s| && s[p] == '`' && s[q] == '`' && !IsNoTerminator(s[t])
    requires forall i :: 0 <= i < |s| && i != p && i != q ==> IsPlainChar(s[i])
    ensures Captured(Plain(s)) == Line(EMPTY, Plain(s))
  {
    OtherIsInert(s, q);
    TerminatorBetween(s, p, t, q);
    InertStays(s);
  }

  lemma TerminatorBetween(s: string, p: nat, t: nat, q: nat)
    requires p < t < q < |s| && s[p] == '`' && !IsNoTerminator(s[t]) && forall i :: p < i < q ==> s[i] != '`'
    ensures Inert(s, p)
  {
    forall k | 0 < k < CAPTURE_COUNT ensures NoMatch(k, s, p) {
      if MatchEnd(k, s, p).Some? { TickMatchHasNone(k, s, p, t, q); }
    }
  }

  lemma TickMatchHasNone(k: nat, s: string, p: nat, t: nat, q: nat)
    requires 0 < k < CAPTURE_COUNT && p < t < q < |s| && s[p] == '`' && MatchEnd(k, s, p).Some?
    requires forall i :: p < i < q ==> s[i] != '`'
    ensures IsNoTerminator(s[t])
  {
    MatchStarts(k, s, p);
    MatchIsLongest(8, s, p);
  }
}
