/**
 * The ten capturing passes over one line, matching what the regular expressions and the
 * scanner of the source match (src/shared/parse-command.ts, lines 155-218).
 */
module LinePasses {
  import opened Text
  import Substitutions
  import opened Placeholders
  import opened CaptureOrder

  /**
   * What a pattern sees of a text. A placeholder is spelled with word characters only
   * and begins with an underscore; no pattern tells it from a single underscore.
   */
  function Outline(text: Symbols): (s: string)
    ensures |s| == |text|
    ensures forall i :: 0 <= i < |text| ==> s[i] == if text[i].Ch? then text[i].c else '_'
  {
    seq(|text|, i requires 0 <= i < |text| => if text[i].Ch? then text[i].c else '_')
  }

  // ---------------------------------------------------------------- character classes

  predicate IsDigit(c: char) {
    '0' <= c <= '9'
  }

  predicate IsLetter(c: char) {
    'a' <= c <= 'z' || 'A' <= c <= 'Z' || c == '_'
  }

  predicate IsWordChar(c: char) {
    IsLetter(c) || IsDigit(c)
  }

  predicate IsSpecial(c: char) {
    c in "?!#$@*-" || IsDigit(c)
  }

  predicate IsTarget(c: char) {
    !IsSpace(c) && c !in ";&|()"
  }

  predicate IsNoTerminator(c: char) {
    !IsBreak(c) && c != '\U{2028}' && c != '\U{2029}'
  }

  // ---------------------------------------------------------------- what each pass looks for

  predicate All(s: string, lo: nat, hi: nat, p: char -> bool)
    requires hi <= |s|
  {
    forall k :: lo <= k < hi ==> p(s[k])
  }

  predicate Lacks(s: string, lo: nat, hi: nat, c: char)
    requires hi <= |s|
  {
    forall k :: lo <= k < hi ==> s[k] != c
  }

  /** From `open` of some width at `i` to the first `close` after it, at `e - 1`. */
  predicate Encloses(s: string, i: nat, width: nat, e: nat, close: char)
    requires e <= |s|
  {
    i + width < e && s[e - 1] == close && Lacks(s, i + width, e - 1, close)
  }

  predicate Pair(s: string, k: nat, a: char, b: char) {
    k + 2 <= |s| && s[k] == a && s[k + 1] == b
  }

  predicate OpensArithmetic(s: string, i: nat) {
    Pair(s, i, '$', '(') && Pair(s, i + 1, '(', '(')
  }

  /** What may follow the first ">" of a redirection. */
  predicate IsRedirectionRest(s: string, i: nat, e: nat)
    requires e <= |s|
  {
    All(s, i, e, IsTarget)
    || (i < e && s[i] == '&' && All(s, i + 1, e, IsTarget))
    || (i + 1 < e && s[i] == '>' && s[i + 1] == '&' && All(s, i + 2, e, IsTarget))
  }

  predicate IsRedirection(s: string, i: nat, e: nat)
    requires e <= |s|
  {
    exists d :: i < d < e && s[d] == '>' && All(s, i, d, IsDigit) && IsRedirectionRest(s, d + 1, e)
  }

  /** The stretch of `s` from `i` to `e` is of the kind that pass `n` captures. */
  predicate HasShape(n: nat, s: string, i: nat, e: nat)
    requires n < CAPTURE_COUNT && i < |s|
  {
    i < e <= |s| &&
    if n == 0 then IsRedirection(s, i, e)
    else if n == 1 then OpensArithmetic(s, i) && i + 5 <= e && Pair(s, e - 2, ')', ')')
    else if n == 2 then Pair(s, i, '$', '[') && Encloses(s, i, 2, e, ']')
    else if n == 3 then Pair(s, i, '$', '{') && i + 3 < e && Encloses(s, i, 2, e, '}')
    else if n == 4 then (Pair(s, i, '<', '(') || Pair(s, i, '>', '(')) && i + 3 < e && Encloses(s, i, 2, e, ')')
    else if n == 5 then i + 1 < e && s[i] == '$' && IsLetter(s[i + 1]) && All(s, i + 1, e, IsWordChar)
    else if n == 6 then e == i + 2 && s[i] == '$' && IsSpecial(s[i + 1])
    else if n == 7 then Pair(s, i, '$', '(') && i + 2 < e && Substitutions.IsEnd(s, i + 2, e - 1)
    else if n == 8 then s[i] == '`' && Encloses(s, i, 1, e, '`') && All(s, i, e, IsNoTerminator)
    else s[i] == '"' && Encloses(s, i, 1, e, '"')
  }

  // ---------------------------------------------------------------- matching

  /** The end of the longest stretch of such characters. */
  function Stretch(s: string, i: nat, p: char -> bool): (e: nat)
    requires i <= |s|
    ensures i <= e <= |s| && All(s, i, e, p)
    ensures e < |s| ==> !p(s[e])
    decreases |s| - i
  {
    if i < |s| && p(s[i]) then Stretch(s, i + 1, p) else i
  }

  /** The first such character at `i` or after it, or the length. */
  function Until(s: string, i: nat, c: char): (e: nat)
    requires i <= |s|
    ensures i <= e <= |s| && Lacks(s, i, e, c)
    ensures e < |s| ==> s[e] == c
    decreases |s| - i
  {
    if i == |s| || s[i] == c then i else Until(s, i + 1, c)
  }

  /** Where the last "))" at `i` or after it ends. */
  function LastClose(s: string, i: nat): (e: Option<nat>)
    requires i <= |s|
    ensures e.Some? ==> i + 2 <= e.value <= |s| && Pair(s, e.value - 2, ')', ')')
    ensures forall k :: i <= k && Pair(s, k, ')', ')') ==> e.Some? && k + 2 <= e.value
    decreases |s| - i
  {
    if |s| < i + 2 then None
    else
      var later := LastClose(s, i + 1);
      if later.Some? then later else if Pair(s, i, ')', ')') then Some(i + 2) else None
  }

  /** Where the substitution whose body begins at `start` is closed. */
  function EndFrom(s: string, start: nat, e: nat): (end: Option<nat>)
    requires start <= e <= |s|
    ensures end.Some? ==> e <= end.value < |s| && Substitutions.IsEnd(s, start, end.value)
    ensures end.None? ==> forall k :: e <= k ==> !Substitutions.IsEnd(s, start, k)
    decreases |s| - e
  {
    if e == |s| then None
    else if Substitutions.IsEnd(s, start, e) then Some(e)
    else EndFrom(s, start, e + 1)
  }

  /** Where the target begins: after one or two ">" and an optional "&". */
  function TargetsFrom(s: string, d: nat): (k: nat)
    requires d < |s|
    ensures d < k <= |s|
  {
    var twice := if d + 1 < |s| && s[d + 1] == '>' then d + 2 else d + 1;
    if twice < |s| && s[twice] == '&' then twice + 1 else twice
  }

  function RedirectionEnd(s: string, i: nat): Option<nat>
    requires i < |s|
  {
    var d := Stretch(s, i, IsDigit);
    if i < d < |s| && s[d] == '>' then Some(Stretch(s, TargetsFrom(s, d), IsTarget)) else None
  }

  /** The match of an opening with the first closing after it, at least `least` characters inside. */
  function FirstClose(s: string, start: nat, least: nat, close: char): (e: Option<nat>)
    requires start <= |s|
    ensures e.Some? ==> start + least < e.value <= |s|
  {
    var at := Until(s, start, close);
    if start + least <= at < |s| then Some(at + 1) else None
  }

  /** The width of the opening that is not stored, with the closing, by the passes for substitutions. */
  function Width(n: nat): nat {
    if n == 4 || n == 7 then 2 else if n == 8 then 1 else 0
  }

  /** Where the match of pass `n` that begins at `i` ends, if there is one. */
  function MatchEnd(n: nat, s: string, i: nat): (e: Option<nat>)
    requires n < CAPTURE_COUNT && i < |s|
    ensures e.Some? ==> i + Width(n) < e.value <= |s|
  {
    if n == 0 then RedirectionEnd(s, i)
    else if n == 1 then (if OpensArithmetic(s, i) then LastClose(s, i + 3) else None)
    else if n == 2 then (if Pair(s, i, '$', '[') then FirstClose(s, i + 2, 0, ']') else None)
    else if n == 3 then (if Pair(s, i, '$', '{') then FirstClose(s, i + 2, 1, '}') else None)
    else if n == 4 then (if Pair(s, i, '<', '(') || Pair(s, i, '>', '(') then FirstClose(s, i + 2, 1, ')') else None)
    else if n == 5 then
      (if i + 1 < |s| && s[i] == '$' && IsLetter(s[i + 1]) then Some(Stretch(s, i + 1, IsWordChar)) else None)
    else if n == 6 then (if i + 1 < |s| && s[i] == '$' && IsSpecial(s[i + 1]) then Some(i + 2) else None)
    else if n == 7 then (if Pair(s, i, '$', '(') then After(EndFrom(s, i + 2, i + 2)) else None)
    else if n == 8 then
      (if s[i] == '`' && All(s, i, Until(s, i + 1, '`'), IsNoTerminator) then FirstClose(s, i + 1, 0, '`') else None)
    else (if s[i] == '"' then FirstClose(s, i + 1, 0, '"') else None)
  }

  function After(e: Option<nat>): Option<nat> {
    if e.Some? then Some(e.value + 1) else None
  }

  // ---------------------------------------------------------------- a match is the longest stretch of its kind

  ghost predicate IsLongest(n: nat, s: string, i: nat, end: Option<nat>)
    requires n < CAPTURE_COUNT && i < |s|
  {
    && (end.Some? ==> HasShape(n, s, i, end.value))
    && (forall e: nat :: HasShape(n, s, i, e) ==> end.Some? && e <= end.value)
  }

  /** A pass matches the longest stretch of its kind that begins at a place, and nothing if there is none. */
  lemma MatchIsLongest(n: nat, s: string, i: nat)
    requires n < CAPTURE_COUNT && i < |s|
    ensures IsLongest(n, s, i, MatchEnd(n, s, i))
  {
    match n
    case 0 => RedirectionMatches(s, i);
    case 1 => ArithmeticMatches(s, i);
    case 2 => EnclosureMatches(2, s, i);
    case 3 => EnclosureMatches(3, s, i);
    case 4 => EnclosureMatches(4, s, i);
    case 5 => VariableMatches(s, i);
    case 6 =>
    case 7 => SubstitutionMatches(s, i);
    case 8 => BacktickMatches(s, i);
    case _ => EnclosureMatches(9, s, i);
  }

  lemma StretchIsLongest(s: string, i: nat, p: char -> bool, e: nat)
    requires i <= e <= |s| && All(s, i, e, p)
    ensures e <= Stretch(s, i, p)
  {
  }

  lemma DigitsEnd(s: string, i: nat, d: nat)
    requires i < d < |s| && All(s, i, d, IsDigit) && s[d] == '>'
    ensures Stretch(s, i, IsDigit) == d
  {
    StretchIsLongest(s, i, IsDigit, d);
  }

  lemma RestIsWithin(s: string, d: nat, e: nat)
    requires d < e <= |s| && IsRedirectionRest(s, d + 1, e)
    ensures e <= Stretch(s, TargetsFrom(s, d), IsTarget)
  {
    var from := TargetsFrom(s, d);
    if from < e {
      StretchIsLongest(s, from, IsTarget, e);
    }
  }

  lemma TargetsAreRest(s: string, i: nat, from: nat, e: nat)
    requires i <= from <= e <= |s| && All(s, from, e, IsTarget)
    requires from == i || (from == i + 1 && s[i] in ">&") || (from == i + 2 && s[i] == '>' && s[i + 1] == '&')
    ensures IsRedirectionRest(s, i, e)
  {
    assert IsTarget('>');
  }

  lemma StretchIsRest(s: string, d: nat)
    requires d < |s|
    ensures IsRedirectionRest(s, d + 1, Stretch(s, TargetsFrom(s, d), IsTarget))
  {
    var from := TargetsFrom(s, d);
    TargetsAreRest(s, d + 1, from, Stretch(s, from, IsTarget));
  }

  lemma RedirectionIs(s: string, i: nat, d: nat, e: nat)
    requires i < d < |s| && All(s, i, d, IsDigit) && s[d] == '>'
    requires d < e <= |s| && IsRedirectionRest(s, d + 1, e)
    ensures IsRedirection(s, i, e) && RedirectionEnd(s, i).Some? && e <= RedirectionEnd(s, i).value
  {
    DigitsEnd(s, i, d);
    RestIsWithin(s, d, e);
  }

  lemma RedirectionMatches(s: string, i: nat)
    requires i < |s|
    ensures IsLongest(0, s, i, MatchEnd(0, s, i))
  {
    var d, end := Stretch(s, i, IsDigit), RedirectionEnd(s, i);
    if end.Some? {
      StretchIsRest(s, d);
      RedirectionIs(s, i, d, end.value);
    }
    forall e: nat | i < e <= |s| && IsRedirection(s, i, e) ensures end.Some? && e <= end.value {
      var k :| i < k < e && s[k] == '>' && All(s, i, k, IsDigit) && IsRedirectionRest(s, k + 1, e);
      RedirectionIs(s, i, k, e);
    }
  }

  lemma ArithmeticMatches(s: string, i: nat)
    requires i < |s|
    ensures IsLongest(1, s, i, MatchEnd(1, s, i))
  {
  }

  lemma FirstCloseEncloses(s: string, i: nat, width: nat, least: nat, close: char, e: nat)
    requires i + width <= |s| && width > 0
    ensures FirstClose(s, i + width, least, close) == Some(e) <==> e <= |s| && i + width + least < e && Encloses(s, i, width, e, close)
  {
    var at := Until(s, i + width, close);
    if e <= |s| && i + width + least < e && Encloses(s, i, width, e, close) {
      assert s[e - 1] == close;
    }
  }

  lemma EnclosureMatches(n: nat, s: string, i: nat)
    requires n in {2, 3, 4, 9} && i < |s|
    ensures IsLongest(n, s, i, MatchEnd(n, s, i))
  {
    var end := MatchEnd(n, s, i);
    var close := if n == 2 then ']' else if n == 3 then '}' else if n == 4 then ')' else '"';
    var width, least := if n == 9 then 1 else 2, if n == 2 || n == 9 then 0 else 1;
    if end.Some? {
      FirstCloseEncloses(s, i, width, least, close, end.value);
    }
    forall e: nat | HasShape(n, s, i, e) ensures end == Some(e) {
      FirstCloseEncloses(s, i, width, least, close, e);
    }
  }

  lemma VariableMatches(s: string, i: nat)
    requires i < |s|
    ensures IsLongest(5, s, i, MatchEnd(5, s, i))
  {
    forall e: nat | HasShape(5, s, i, e) ensures e <= Stretch(s, i + 1, IsWordChar) {
      StretchIsLongest(s, i + 1, IsWordChar, e);
    }
  }

  lemma SubstitutionMatches(s: string, i: nat)
    requires i < |s|
    ensures IsLongest(7, s, i, MatchEnd(7, s, i))
  {
    forall e: nat | HasShape(7, s, i, e) ensures MatchEnd(7, s, i) == Some(e) {
      Substitutions.EndIsUnique(s, i + 2, e - 1, EndFrom(s, i + 2, i + 2).value);
    }
  }

  lemma BacktickMatches(s: string, i: nat)
    requires i < |s|
    ensures IsLongest(8, s, i, MatchEnd(8, s, i))
  {
    var end := MatchEnd(8, s, i);
    if end.Some? {
      FirstCloseEncloses(s, i, 1, 0, '`', end.value);
      assert IsNoTerminator('`');
    }
    forall e: nat | HasShape(8, s, i, e) ensures end == Some(e) {
      FirstCloseEncloses(s, i, 1, 0, '`', e);
    }
  }

  // ---------------------------------------------------------------- one pass over a text

  function TrimStartOf(text: Symbols): Symbols {
    if text != [] && text[0].Ch? && IsSpace(text[0].c) then TrimStartOf(text[1..]) else text
  }

  function TrimEndOf(text: Symbols): Symbols {
    if text != [] && text[|text| - 1].Ch? && IsSpace(text[|text| - 1].c) then TrimEndOf(text[..|text| - 1]) else text
  }

  function TrimOf(text: Symbols): Symbols {
    TrimEndOf(TrimStartOf(text))
  }

  /** What is stored for a match: all of it, or a substitution's trimmed body. */
  function StoredFor(n: nat, matched: Symbols): Symbols
    requires |matched| > Width(n)
  {
    if Width(n) == 0 then matched else TrimOf(matched[Width(n)..|matched| - 1])
  }

  function LengthOf(segment: Segment): nat {
    match segment
    case Keep(_) => 1
    case Span(matched, _) => |matched|
  }

  predicate Within(n: nat, text: Symbols, i: nat, end: Option<nat>) {
    i < |text| && (end.Some? ==> i + Width(n) < end.value <= |text|)
  }

  /** A match that ends there, or a single symbol. */
  function SegmentTo(n: nat, text: Symbols, i: nat, end: Option<nat>): (segment: Segment)
    requires Within(n, text, i, end)
    ensures 0 < LengthOf(segment) <= |text| - i && EndIn(i, segment) == end
  {
    match end
    case None => Keep(text[i])
    case Some(e) => Span(text[i..e], StoredFor(n, text[i..e]))
  }

  /** Where the segment ends if it is a match. */
  function EndIn(i: nat, segment: Segment): Option<nat> {
    if segment.Keep? then None else Some(i + LengthOf(segment))
  }

  /** The segment with which the pass goes on at `i`. */
  function SegmentAt(n: nat, text: Symbols, i: nat): (segment: Segment)
    requires n < CAPTURE_COUNT && i < |text|
    ensures 0 < LengthOf(segment) <= |text| - i
  {
    SegmentTo(n, text, i, MatchEnd(n, Outline(text), i))
  }

  /** Where the matches end that begin at the first `k` places. */
  function Ends(n: nat, s: string, k: nat): (ends: seq<Option<nat>>)
    requires n < CAPTURE_COUNT && k <= |s|
    ensures |ends| == k && forall i :: 0 <= i < k && ends[i].Some? ==> i + Width(n) < ends[i].value <= |s|
  {
    if k == 0 then [] else Ends(n, s, k - 1) + [MatchEnd(n, s, k - 1)]
  }

  lemma {:induction false} EndsAt(n: nat, s: string, k: nat, i: nat)
    requires n < CAPTURE_COUNT && i < k <= |s|
    ensures Ends(n, s, k)[i] == MatchEnd(n, s, i)
  {
    if i < k - 1 { EndsAt(n, s, k - 1, i); }
  }

  /** What the pass would do at each place. */
  function Places(n: nat, text: Symbols): (places: seq<Segment>)
    requires n < CAPTURE_COUNT
    ensures |places| == |text| && Fit(places)
  {
    var ends := Ends(n, Outline(text), |text|);
    seq(|text|, i requires 0 <= i < |text| => SegmentTo(n, text, i, ends[i]))
  }

  lemma PlaceIs(n: nat, text: Symbols, i: nat)
    requires n < CAPTURE_COUNT && i < |text|
    ensures Places(n, text)[i] == SegmentAt(n, text, i)
  {
    EndsAt(n, Outline(text), |text|, i);
  }

  predicate Fit(places: seq<Segment>) {
    forall i :: 0 <= i < |places| ==> 0 < LengthOf(places[i]) <= |places| - i
  }

  /** One segment after the other, each beginning where the last one ends. */
  function Follow(places: seq<Segment>, i: nat): seq<Segment>
    requires Fit(places) && i <= |places|
    decreases |places| - i
  {
    if i == |places| then [] else [places[i]] + Follow(places, i + LengthOf(places[i]))
  }

  /** Pass `n` over a text: leftmost matches that do not overlap. */
  function Scan(n: nat, text: Symbols): seq<Segment>
    requires n < CAPTURE_COUNT
  {
    Follow(Places(n, text), 0)
  }

  /** A segment that begins at `i` is the longest match there, or a symbol where nothing matches. */
  ghost predicate GoodAt(n: nat, text: Symbols, i: nat, segment: Segment)
    requires n < CAPTURE_COUNT
  {
    var end := EndIn(i, segment);
    Within(n, text, i, end) && segment == SegmentTo(n, text, i, end) && IsLongest(n, Outline(text), i, end)
  }

  lemma SegmentIsGood(n: nat, text: Symbols, i: nat)
    requires n < CAPTURE_COUNT && i < |text|
    ensures GoodAt(n, text, i, SegmentAt(n, text, i))
  {
    MatchIsLongest(n, Outline(text), i);
  }

  lemma EndIsMatch(n: nat, text: Symbols, i: nat, end: Option<nat>)
    requires n < CAPTURE_COUNT && i < |text| && IsLongest(n, Outline(text), i, end)
    ensures end == MatchEnd(n, Outline(text), i)
  {
    MatchIsLongest(n, Outline(text), i);
    LongestIsUnique(n, Outline(text), i, MatchEnd(n, Outline(text), i), end);
  }

  lemma GoodIsSegment(n: nat, text: Symbols, i: nat, segment: Segment)
    requires n < CAPTURE_COUNT && i < |text| && GoodAt(n, text, i, segment)
    ensures segment == SegmentAt(n, text, i)
  {
    EndIsMatch(n, text, i, EndIn(i, segment));
  }

  lemma LongestIsUnique(n: nat, s: string, i: nat, a: Option<nat>, b: Option<nat>)
    requires n < CAPTURE_COUNT && i < |s| && IsLongest(n, s, i, a) && IsLongest(n, s, i, b)
    ensures a == b
  {
    if a.Some? { assert HasShape(n, s, i, a.value); }
    if b.Some? { assert HasShape(n, s, i, b.value); }
  }

  /** Where segment `k` begins. */
  function PlaceOf(segments: seq<Segment>, k: nat): nat
    requires k <= |segments|
  {
    if k == 0 then 0 else LengthOf(segments[0]) + PlaceOf(segments[1..], k - 1)
  }

  ghost predicate Scanned(n: nat, text: Symbols, segments: seq<Segment>)
    requires n < CAPTURE_COUNT
  {
    PlaceOf(segments, |segments|) == |text|
    && forall k :: 0 <= k < |segments| ==> GoodAt(n, text, PlaceOf(segments, k), segments[k])
  }

  /**
   * A pass cuts a text in one way only: into the longest matches at their places and
   * symbols at which nothing of its kind begins.
   */
  lemma ScanExactlyWhen(n: nat, text: Symbols, segments: seq<Segment>)
    requires n < CAPTURE_COUNT
    ensures segments == Scan(n, text) <==> Scanned(n, text, segments)
  {
    if segments == Scan(n, text) {
      ScanIsScanned(n, text);
    }
    if Scanned(n, text, segments) {
      ScannedIsScan(n, text, segments);
    }
  }

  lemma ScannedIsScan(n: nat, text: Symbols, segments: seq<Segment>)
    requires n < CAPTURE_COUNT && Scanned(n, text, segments)
    ensures segments == Scan(n, text)
  {
    ScannedTakes(n, text, segments);
    TakesFollow(Places(n, text), 0, segments);
  }

  lemma ScannedTakes(n: nat, text: Symbols, segments: seq<Segment>)
    requires n < CAPTURE_COUNT && Scanned(n, text, segments)
    ensures TakesAll(Places(n, text), 0, segments)
  {
    forall k | 0 <= k < |segments| ensures Takes(Places(n, text), PlaceOf(segments, k), segments[k]) {
      TakesGood(n, text, PlaceOf(segments, k), segments[k]);
    }
  }

  lemma ScanIsScanned(n: nat, text: Symbols)
    requires n < CAPTURE_COUNT
    ensures Scanned(n, text, Scan(n, text))
  {
    var places, segments := Places(n, text), Scan(n, text);
    FollowTakes(places, 0);
    forall k | 0 <= k < |segments| ensures GoodAt(n, text, PlaceOf(segments, k), segments[k]) {
      assert Takes(places, PlaceOf(segments, k), segments[k]);
      TakenIsGood(n, text, PlaceOf(segments, k), segments[k]);
    }
  }

  lemma TakenIsGood(n: nat, text: Symbols, i: nat, segment: Segment)
    requires n < CAPTURE_COUNT && Takes(Places(n, text), i, segment)
    ensures GoodAt(n, text, i, segment)
  {
    PlaceIs(n, text, i);
    SegmentIsGood(n, text, i);
  }

  /** From place `i` on the segments are those of their places, to the end. */
  predicate TakesAll(places: seq<Segment>, i: nat, segments: seq<Segment>) {
    && i + PlaceOf(segments, |segments|) == |places|
    && forall k :: 0 <= k < |segments| ==> Takes(places, i + PlaceOf(segments, k), segments[k])
  }

  predicate Takes(places: seq<Segment>, i: nat, segment: Segment) {
    i < |places| && places[i] == segment
  }

  lemma TakesGood(n: nat, text: Symbols, i: nat, segment: Segment)
    requires n < CAPTURE_COUNT && GoodAt(n, text, i, segment)
    ensures Takes(Places(n, text), i, segment)
  {
    GoodIsSegment(n, text, i, segment);
    PlaceIs(n, text, i);
  }

  lemma {:induction false} FollowTakes(places: seq<Segment>, i: nat)
    requires Fit(places) && i <= |places|
    ensures TakesAll(places, i, Follow(places, i))
    decreases |places| - i
  {
    if i < |places| {
      var segments := Follow(places, i);
      var next := i + LengthOf(places[i]);
      FollowTakes(places, next);
      assert segments[1..] == Follow(places, next);
      forall k | 0 <= k < |segments| ensures Takes(places, i + PlaceOf(segments, k), segments[k]) {
        if k > 0 { assert Takes(places, next + PlaceOf(segments[1..], k - 1), segments[1..][k - 1]); }
      }
    }
  }

  lemma {:induction false} TakesFollow(places: seq<Segment>, i: nat, segments: seq<Segment>)
    requires Fit(places) && TakesAll(places, i, segments)
    ensures segments == Follow(places, i)
    decreases |segments|
  {
    if segments != [] {
      assert Takes(places, i + PlaceOf(segments, 0), segments[0]);
      TakesRest(places, i, segments);
      TakesFollow(places, i + LengthOf(segments[0]), segments[1..]);
    }
  }

  lemma TakesRest(places: seq<Segment>, i: nat, segments: seq<Segment>)
    requires segments != [] && TakesAll(places, i, segments)
    ensures TakesAll(places, i + LengthOf(segments[0]), segments[1..])
  {
    var next, rest := i + LengthOf(segments[0]), segments[1..];
    forall k | 0 <= k < |rest| ensures Takes(places, next + PlaceOf(rest, k), rest[k]) {
      assert Takes(places, i + PlaceOf(segments, k + 1), segments[k + 1]);
    }
  }

  // ---------------------------------------------------------------- all that a pass stores, it has matched

  predicate Covers(text: Symbols, i: nat, segment: Segment) {
    i + LengthOf(segment) <= |text| && Input([segment]) == text[i..i + LengthOf(segment)]
  }

  lemma {:induction false} FollowInput(text: Symbols, places: seq<Segment>, i: nat)
    requires Fit(places) && i <= |places| == |text| && forall k :: 0 <= k < |places| ==> Covers(text, k, places[k])
    ensures Input(Follow(places, i)) == text[i..]
    decreases |places| - i
  {
    if i < |places| {
      var next := i + LengthOf(places[i]);
      FollowInput(text, places, next);
      InputCons(places[i], Follow(places, next));
      assert Covers(text, i, places[i]);
      assert text[i..] == text[i..next] + text[next..];
    }
  }

  lemma InputCons(segment: Segment, rest: seq<Segment>)
    ensures Input([segment] + rest) == Input([segment]) + Input(rest)
  {
    assert ([segment] + rest)[1..] == rest;
  }

  predicate FaithfulOne(segment: Segment) {
    segment.Span? ==> KeepsRefs(segment.matched, segment.stored)
  }

  lemma {:induction false} FollowIsFaithful(places: seq<Segment>, i: nat)
    requires Fit(places) && i <= |places| && forall k :: 0 <= k < |places| ==> FaithfulOne(places[k])
    ensures Faithful(Follow(places, i))
    decreases |places| - i
  {
    if i < |places| {
      FollowIsFaithful(places, i + LengthOf(places[i]));
      assert FaithfulOne(places[i]);
    }
  }

  lemma {:induction false} TrimStartKeepsRefs(text: Symbols)
    ensures KeepsRefs(text, TrimStartOf(text))
  {
    if text != [] && text[0].Ch? && IsSpace(text[0].c) {
      TrimStartKeepsRefs(text[1..]);
      assert forall i :: 0 < i < |text| ==> text[i] == text[1..][i - 1];
    }
  }

  lemma {:induction false} TrimEndKeepsRefs(text: Symbols)
    ensures KeepsRefs(text, TrimEndOf(text))
  {
    if text != [] && text[|text| - 1].Ch? && IsSpace(text[|text| - 1].c) {
      TrimEndKeepsRefs(text[..|text| - 1]);
      assert forall i :: 0 <= i < |text| - 1 ==> text[i] == text[..|text| - 1][i];
    }
  }

  lemma KeepsRefsTrans(a: Symbols, b: Symbols, c: Symbols)
    requires KeepsRefs(a, b) && KeepsRefs(b, c)
    ensures KeepsRefs(a, c)
  {
    forall i | 0 <= i < |a| && a[i].Ref? ensures a[i] in c {
      var k :| 0 <= k < |b| && b[k] == a[i];
    }
    forall i | 0 <= i < |c| && c[i].Ref? ensures c[i] in a {
      var k :| 0 <= k < |b| && b[k] == c[i];
    }
  }

  lemma InsideKeepsRefs(m: Symbols, w: nat)
    requires w < |m| && m[|m| - 1].Ch? && forall k :: 0 <= k < w ==> m[k].Ch?
    ensures KeepsRefs(m, m[w..|m| - 1])
  {
    var inner := m[w..|m| - 1];
    forall i | 0 <= i < |m| && m[i].Ref? ensures m[i] in inner {
      assert m[i] == inner[i - w];
    }
    forall i | 0 <= i < |inner| ensures inner[i] in m {
      assert inner[i] == m[w + i];
    }
  }

  /** What a stretch of a pass's kind is delimited by. */
  lemma ShapeIsDelimited(n: nat, s: string, i: nat, e: nat)
    requires n < CAPTURE_COUNT && i < |s| && Width(n) > 0 && HasShape(n, s, i, e)
    ensures i + Width(n) < e <= |s| && s[e - 1] in ")`" && s[i] in "$<>`" && (Width(n) == 2 ==> s[i + 1] == '(')
  {
  }

  /** Delimiters are characters. */
  lemma DelimitersAreChars(n: nat, text: Symbols, i: nat)
    requires n < CAPTURE_COUNT && i < |text| && SegmentAt(n, text, i).Span? && Width(n) > 0
    ensures var m := SegmentAt(n, text, i).matched;
      |m| > Width(n) && m[|m| - 1].Ch? && forall k :: 0 <= k < Width(n) ==> m[k].Ch?
  {
    var s := Outline(text);
    var e := MatchEnd(n, s, i).value;
    MatchIsLongest(n, s, i);
    ShapeIsDelimited(n, s, i, e);
  }

  lemma SegmentIsFaithful(n: nat, text: Symbols, i: nat)
    requires n < CAPTURE_COUNT && i < |text|
    ensures FaithfulOne(SegmentAt(n, text, i)) && Covers(text, i, SegmentAt(n, text, i))
  {
    var segment := SegmentAt(n, text, i);
    if segment.Span? {
      assert Input([segment]) == segment.matched;
      if Width(n) > 0 {
        DelimitersAreChars(n, text, i);
        var inner := segment.matched[Width(n)..|segment.matched| - 1];
        InsideKeepsRefs(segment.matched, Width(n));
        TrimStartKeepsRefs(inner);
        TrimEndKeepsRefs(TrimStartOf(inner));
        KeepsRefsTrans(inner, TrimStartOf(inner), TrimOf(inner));
        KeepsRefsTrans(segment.matched, inner, TrimOf(inner));
      }
    }
  }

  lemma ScanIsFaithful(n: nat, text: Symbols)
    requires n < CAPTURE_COUNT
    ensures Input(Scan(n, text)) == text && Faithful(Scan(n, text))
  {
    var places := Places(n, text);
    forall k | 0 <= k < |places| ensures FaithfulOne(places[k]) && Covers(text, k, places[k]) {
      PlaceIs(n, text, k);
      SegmentIsFaithful(n, text, k);
    }
    FollowInput(text, places, 0);
    FollowIsFaithful(places, 0);
  }

  // ---------------------------------------------------------------- the line

  /** What has been stored of a line, and what it has become. */
  datatype Line = Line(store: Store, text: Symbols)

  function PassOver(n: nat, text: Symbols): Capture
    requires n < CAPTURE_COUNT
  {
    Capture(CaptureKind(n), Scan(n, text))
  }

  function Passed(c: Capture, line: Line): Line {
    Line(line.store.Push(c.kind, Stored(c.segments)), Output(c.kind, c.segments, |line.store.Of(c.kind)|))
  }

  function NextLine(n: nat, line: Line): Line
    requires n < CAPTURE_COUNT
  {
    Passed(PassOver(n, line.text), line)
  }

  /** The line before pass `n`. */
  function LineAt(command: Symbols, n: nat): Line
    requires n <= CAPTURE_COUNT
  {
    if n == 0 then Line(EMPTY, command)
    else NextLine(n - 1, LineAt(command, n - 1))
  }

  /** The line after the ten passes. */
  function Captured(command: Symbols): Line {
    LineAt(command, CAPTURE_COUNT)
  }

  function LineCaptures(command: Symbols): (captures: seq<Capture>)
    ensures InSourceOrder(captures)
    ensures forall n :: 0 <= n < CAPTURE_COUNT ==> captures[n] == PassOver(n, LineAt(command, n).text)
  {
    seq(CAPTURE_COUNT, n requires 0 <= n < CAPTURE_COUNT => PassOver(n, LineAt(command, n).text))
  }

  /** One pass leads from a line to the next. */
  predicate Leads(line: Line, c: Capture, next: Line) {
    Input(c.segments) == line.text && Passed(c, line) == next
  }

  lemma {:induction false} RunThrough(lines: seq<Line>, captures: seq<Capture>)
    requires |lines| == |captures| + 1
    requires forall k :: 0 <= k < |captures| ==> Leads(lines[k], captures[k], lines[k + 1])
    ensures IsRun(lines[0].store, lines[0].text, captures)
    ensures StoreAfter(lines[0].store, captures) == lines[|captures|].store
    ensures TextAfter(lines[0].store, lines[0].text, captures) == lines[|captures|].text
    decreases |captures|
  {
    if captures != [] {
      assert Leads(lines[0], captures[0], lines[1]);
      forall k | 0 <= k < |captures[1..]| ensures Leads(lines[1..][k], captures[1..][k], lines[1..][k + 1]) {
        assert Leads(lines[k + 1], captures[k + 1], lines[k + 2]);
      }
      RunThrough(lines[1..], captures[1..]);
    }
  }

  function Lines(command: Symbols): (lines: seq<Line>)
    ensures |lines| == CAPTURE_COUNT + 1 && forall n :: 0 <= n < |lines| ==> lines[n] == LineAt(command, n)
  {
    seq(CAPTURE_COUNT + 1, n requires 0 <= n <= CAPTURE_COUNT => LineAt(command, n))
  }

  lemma LineLeads(command: Symbols, n: nat)
    requires n < CAPTURE_COUNT
    ensures Leads(LineAt(command, n), PassOver(n, LineAt(command, n).text), LineAt(command, n + 1))
    ensures Faithful(PassOver(n, LineAt(command, n).text).segments)
  {
    ScanIsFaithful(n, LineAt(command, n).text);
  }

  /**
   * What the source's patterns match makes a run of its passes, so all that holds of
   * such runs holds of lines.
   */
  lemma LineIsRun(command: Symbols)
    ensures var captures := LineCaptures(command);
      && InSourceOrder(captures) && IsRun(EMPTY, command, captures) && AllFaithful(captures)
      && Captured(command) == Line(StoreAfter(EMPTY, captures), TextAfter(EMPTY, command, captures))
  {
    var lines, captures := Lines(command), LineCaptures(command);
    forall n | 0 <= n < CAPTURE_COUNT ensures Leads(lines[n], captures[n], lines[n + 1]) && Faithful(captures[n].segments) {
      LineLeads(command, n);
    }
    RunThrough(lines, captures);
    assert lines[0] == Line(EMPTY, command);
  }

  /** What is done so far, followed by what the segments from `i` on will give, is the whole. */
  ghost predicate Written(kind: Kind, rest: seq<Segment>, first: nat, output: Symbols, pushed: seq<Symbols>,
                          allOutput: Symbols, allStored: seq<Symbols>) {
    allOutput == output + Output(kind, rest, first + |pushed|) && allStored == pushed + Stored(rest)
  }

  lemma WriteKept(kind: Kind, s: Symbol, rest: seq<Segment>, first: nat, output: Symbols, pushed: seq<Symbols>,
                  allOutput: Symbols, allStored: seq<Symbols>)
    requires Written(kind, [Keep(s)] + rest, first, output, pushed, allOutput, allStored)
    ensures Written(kind, rest, first, output + [s], pushed, allOutput, allStored)
  {
    assert ([Keep(s)] + rest)[1..] == rest;
    Associates(output, [s], Output(kind, rest, first + |pushed|));
  }

  lemma WriteRef(kind: Kind, matched: Symbols, stored: Symbols, rest: seq<Segment>, first: nat, output: Symbols,
                 pushed: seq<Symbols>, allOutput: Symbols, allStored: seq<Symbols>)
    requires Written(kind, [Span(matched, stored)] + rest, first, output, pushed, allOutput, allStored)
    ensures Written(kind, rest, first, output + [Ref(kind, first + |pushed|)], pushed + [stored], allOutput, allStored)
  {
    assert ([Span(matched, stored)] + rest)[1..] == rest;
    Associates(output, [Ref(kind, first + |pushed|)], Output(kind, rest, first + |pushed| + 1));
    Associates(pushed, [stored], Stored(rest));
  }

  /** Replaces matches by placeholders, one place after the other, and returns what is kept of them. */
  method ReplaceMatches(kind: Kind, places: seq<Segment>, first: nat) returns (output: Symbols, pushed: seq<Symbols>)
    requires Fit(places)
    ensures output == Output(kind, Follow(places, 0), first) && pushed == Stored(Follow(places, 0))
  {
    output, pushed := [], [];
    var i := 0;
    ghost var allOutput, allStored := Output(kind, Follow(places, 0), first), Stored(Follow(places, 0));
    while i < |places|
      invariant i <= |places|
      invariant Written(kind, Follow(places, i), first, output, pushed, allOutput, allStored)
    {
      var segment := places[i];
      ghost var rest := Follow(places, i + LengthOf(segment));
      if segment.Keep? {
        WriteKept(kind, segment.symbol, rest, first, output, pushed, allOutput, allStored);
        output := output + [segment.symbol];
      } else {
        WriteRef(kind, segment.matched, segment.stored, rest, first, output, pushed, allOutput, allStored);
        output := output + [Ref(kind, first + |pushed|)];
        pushed := pushed + [segment.stored];
      }
      i := i + LengthOf(segment);
    }
    assert output + [] == output && pushed + [] == pushed;
  }

  /** Pass `n`: stores what it keeps of its matches and leaves placeholders. */
  method Capturing(n: nat, line: Line) returns (next: Line)
    requires n < CAPTURE_COUNT
    ensures next == NextLine(n, line)
  {
    var kind := CaptureKind(n);
    var output, pushed := ReplaceMatches(kind, Places(n, line.text), |line.store.Of(kind)|);
    next := Line(line.store.Push(kind, pushed), output);
  }

  /** The ten replacements of one line, from the redirections to the double quotes. */
  method CaptureLine(command: Symbols) returns (line: Line)
    ensures line == Captured(command)
  {
    line := LineAt(command, 0);
    line := Capturing(0, line);
    LineStep(command, 0);
    line := Capturing(1, line);
    LineStep(command, 1);
    line := Capturing(2, line);
    LineStep(command, 2);
    line := Capturing(3, line);
    LineStep(command, 3);
    line := Capturing(4, line);
    LineStep(command, 4);
    line := Capturing(5, line);
    LineStep(command, 5);
    line := Capturing(6, line);
    LineStep(command, 6);
    line := Capturing(7, line);
    LineStep(command, 7);
    line := Capturing(8, line);
    LineStep(command, 8);
    line := Capturing(9, line);
    LineStep(command, 9);
  }

  lemma LineStep(command: Symbols, n: nat)
    requires n < CAPTURE_COUNT
    ensures LineAt(command, n + 1) == NextLine(n, LineAt(command, n))
  {
  }
}
