/**
 * Heredocs as they are written: the operators on the opening line in all their forms,
 * and the lines that close them (src/shared/parse-command.ts, lines 67-125).
 */
module WrittenHeredocs {
  import opened Text
  import opened Characters
  import opened Heredocs

  datatype Form = SingleQuoted | DoubleQuoted | Bare | Backslashed

  /** An operator: with a dash or not, some blanks, and the marker in one of its forms. */
  datatype Operator = Operator(dash: bool, blanks: string, form: Form, marker: string)

  predicate IsStop(c: char) {
    IsBlank(c) || c == ';' || c == '&' || c == '|' || c == '(' || c == ')' || c == '<' || c == '>'
  }

  predicate NoStops(s: string) {
    forall i :: 0 <= i < |s| ==> !IsStop(s[i])
  }

  predicate Valid(op: Operator) {
    op.marker != "" && AllBlank(op.blanks) &&
    match op.form
    case SingleQuoted => '\'' !in op.marker
    case DoubleQuoted => '"' !in op.marker
    case Bare => NoStops(op.marker) && op.marker[0] !in "'\"\\-"
    case Backslashed => NoStops(op.marker)
  }

  function WrittenMarker(form: Form, marker: string): string {
    match form
    case SingleQuoted => "'" + (marker + "'")
    case DoubleQuoted => "\"" + (marker + "\"")
    case Bare => marker
    case Backslashed => "\\" + marker
  }

  function Written(op: Operator): string {
    (if op.dash then "<<-" else "<<") + (op.blanks + WrittenMarker(op.form, op.marker))
  }

  /** Text in which nothing reads as an operator, also not with what follows. */
  predicate IsPlain(text: string) {
    text == "" || ((text[0] == '<' ==> |text| > 1 && text[1] != '<') && IsPlain(text[1..]))
  }

  /** What a marker without quotes needs behind it. */
  predicate EndsMarker(op: Operator, rest: string) {
    (op.form == Bare || op.form == Backslashed) && rest != "" ==> IsStop(rest[0])
  }

  /** Operators, each behind a piece of text, and a last piece. */
  function Line(texts: seq<string>, ops: seq<Operator>): string
    requires |texts| == |ops| + 1
  {
    if ops == [] then texts[0] else texts[0] + (Written(ops[0]) + Line(texts[1..], ops[1..]))
  }

  predicate ValidLine(texts: seq<string>, ops: seq<Operator>)
    requires |texts| == |ops| + 1
  {
    IsPlain(texts[0]) && (ops != [] ==> Valid(ops[0]) && EndsMarker(ops[0], Line(texts[1..], ops[1..])) && ValidLine(texts[1..], ops[1..]))
  }

  function Read(ops: seq<Operator>): (ds: seq<Delimiter>)
    ensures |ds| == |ops| && forall i :: 0 <= i < |ops| ==> ds[i] == Delimiter(ops[i].marker, ops[i].dash)
  {
    seq(|ops|, i requires 0 <= i < |ops| => Delimiter(ops[i].marker, ops[i].dash))
  }

  /** A line has the delimiters it was written with, in order, and no others. */
  lemma {:induction false} WrittenDelimitersAreRead(texts: seq<string>, ops: seq<Operator>)
    requires |texts| == |ops| + 1 && ValidLine(texts, ops)
    ensures Delimiters(Line(texts, ops)) == Read(ops)
  {
    if ops == [] {
      SkipPlain(texts[0], "");
      assert texts[0] + "" == texts[0];
    } else {
      WrittenDelimitersAreRead(texts[1..], ops[1..]);
      FirstIsRead(texts[0], ops[0], Line(texts[1..], ops[1..]));
      assert Read(ops) == [Delimiter(ops[0].marker, ops[0].dash)] + Read(ops[1..]);
    }
  }

  lemma FirstIsRead(text: string, op: Operator, rest: string)
    requires IsPlain(text) && Valid(op) && EndsMarker(op, rest)
    ensures Delimiters(text + (Written(op) + rest)) == [Delimiter(op.marker, op.dash)] + Delimiters(rest)
  {
    SkipPlain(text, Written(op) + rest);
    ReadWritten(op, rest);
  }

  // ---------------------------------------------------------------- plain text

  lemma {:induction false} SkipPlain(text: string, s: string)
    requires IsPlain(text)
    ensures Delimiters(text + s) == Delimiters(s)
  {
    if text == "" {
      assert text + s == s;
    } else {
      SkipPlain(text[1..], s);
      assert (text + s)[0] == text[0] && (text + s)[1..] == text[1..] + s;
      if |text| > 1 { assert (text + s)[1] == text[1]; }
      SkipOne(text + s);
    }
  }

  lemma SkipOne(s: string)
    requires s != "" && (s[0] == '<' ==> |s| > 1 && s[1] != '<')
    ensures Delimiters(s) == Delimiters(s[1..])
  {
    var m := NextOperator(s[1..]);
    assert OperatorAt(s) == None && NextOperator(s) == Further(m, 1);
    if m.Some? { assert s[1..][m.value.end..] == s[1 + m.value.end..]; }
  }

  // ---------------------------------------------------------------- one operator

  lemma StopIs(c: char)
    ensures IsBare(c) <==> !IsStop(c)
  {
    SpaceIsBlank(c);
  }

  lemma {:induction false} BareRun(marker: string, rest: string)
    requires NoStops(marker) && (rest != "" ==> IsStop(rest[0]))
    ensures BareLength(marker + rest) == |marker|
  {
    if marker == "" {
      assert marker + rest == rest;
      if rest != "" { StopIs(rest[0]); }
    } else {
      StopIs(marker[0]);
      assert (marker + rest)[1..] == marker[1..] + rest;
      BareRun(marker[1..], rest);
    }
  }

  lemma ReadBare(marker: string, rest: string, dash: bool)
    requires marker != "" && NoStops(marker) && (rest != "" ==> IsStop(rest[0]))
    ensures BareWord(marker + rest, dash) == Some(Match(Delimiter(marker, dash), |marker|))
  {
    BareRun(marker, rest);
    assert (marker + rest)[..|marker|] == marker;
  }

  lemma ReadQuotes(c: char, marker: string, rest: string, dash: bool)
    requires (c == '\'' || c == '"') && marker != "" && c !in marker
    ensures Word([c] + (marker + [c]) + rest, dash) == Some(Match(Delimiter(marker, dash), |marker| + 2))
  {
    var s := [c] + (marker + [c]) + rest;
    assert s[1..] == marker + ([c] + rest);
    FindAfter(marker, c, rest);
    assert s[1..1 + |marker|] == marker;
  }

  lemma ReadBareMarker(marker: string, rest: string, dash: bool)
    requires marker != "" && NoStops(marker) && (rest != "" ==> IsStop(rest[0]))
    requires marker[0] != '\'' && marker[0] != '"' && marker[0] != '\\'
    ensures Word(marker + rest, dash) == Some(Match(Delimiter(marker, dash), |marker|))
  {
    ReadBare(marker, rest, dash);
    assert (marker + rest)[0] == marker[0];
  }

  lemma ReadBackslashed(marker: string, rest: string, dash: bool)
    requires marker != "" && NoStops(marker) && (rest != "" ==> IsStop(rest[0]))
    ensures Word("\\" + marker + rest, dash) == Some(Match(Delimiter(marker, dash), |marker| + 1))
  {
    var s := "\\" + marker + rest;
    ReadBare(marker, rest, dash);
    assert s[0] == '\\' && s[1..] == marker + rest;
  }

  /** A marker in its form is read up to its end. */
  lemma ReadMarker(op: Operator, rest: string)
    requires Valid(op) && EndsMarker(op, rest)
    ensures var w := WrittenMarker(op.form, op.marker);
      Word(w + rest, op.dash) == Some(Match(Delimiter(op.marker, op.dash), |w|))
  {
    match op.form
    case SingleQuoted => ReadQuotes('\'', op.marker, rest, op.dash);
    case DoubleQuoted => ReadQuotes('"', op.marker, rest, op.dash);
    case Bare => ReadBareMarker(op.marker, rest, op.dash);
    case Backslashed => ReadBackslashed(op.marker, rest, op.dash);
  }

  lemma MarkerBegins(op: Operator)
    requires Valid(op)
    ensures var w := WrittenMarker(op.form, op.marker); w != "" && !IsSpace(w[0]) && w[0] != '-'
  {
    if op.form == Bare { SpaceIsBlank(op.marker[0]); }
  }

  lemma SkipBlank(b: char, s: string, dash: bool)
    requires IsSpace(b)
    ensures SpacedWord([b] + s, dash) == Further(SpacedWord(s, dash), 1)
  {
    assert ([b] + s)[1..] == s;
  }

  /** A reader that passes over a blank and counts it. */
  ghost predicate PassesBlanks(f: string -> Option<Match>) {
    forall b: char, s: string :: IsSpace(b) ==> f([b] + s) == Further(f(s), 1)
  }

  lemma {:induction false} PassesAll(f: string -> Option<Match>, blanks: string, s: string, m: Match)
    requires PassesBlanks(f) && AllSpace(blanks) && f(s) == Some(m)
    ensures f(blanks + s) == Some(m.(end := m.end + |blanks|))
    decreases |blanks|
  {
    if blanks == "" {
      assert blanks + s == s;
    } else {
      PassesAll(f, blanks[1..], s, m);
      FirstAndRest(blanks, s);
      assert f([blanks[0]] + (blanks[1..] + s)) == Further(f(blanks[1..] + s), 1);
    }
  }

  lemma SkipBlanks(blanks: string, s: string, dash: bool, m: Match)
    requires AllSpace(blanks) && SpacedWord(s, dash) == Some(m)
    ensures SpacedWord(blanks + s, dash) == Some(m.(end := m.end + |blanks|))
  {
    var f := (x: string) => SpacedWord(x, dash);
    forall b: char, x: string | IsSpace(b) ensures f([b] + x) == Further(f(x), 1) {
      SkipBlank(b, x, dash);
    }
    PassesAll(f, blanks, s, m);
  }

  lemma FirstAndRest(blanks: string, s: string)
    requires blanks != ""
    ensures blanks + s == [blanks[0]] + (blanks[1..] + s)
  {
  }

  lemma NoBlankFirst(s: string, dash: bool)
    requires s != "" && !IsSpace(s[0])
    ensures SpacedWord(s, dash) == Word(s, dash)
  {
  }

  lemma NoDash(blanks: string, s: string)
    requires AllSpace(blanks) && s != "" && s[0] != '-'
    ensures blanks + s != "" && (blanks + s)[0] != '-'
  {
    if blanks != "" { assert IsSpace(blanks[0]); }
  }

  lemma DashedAt(s: string, m: Match)
    requires SpacedWord(s, true) == Some(m)
    ensures OperatorAt("<<-" + s) == Some(m.(end := m.end + 3))
  {
    assert ("<<-" + s)[3..] == s;
  }

  lemma UndashedAt(s: string, m: Match)
    requires SpacedWord(s, false) == Some(m) && s != "" && s[0] != '-'
    ensures OperatorAt("<<" + s) == Some(m.(end := m.end + 2))
  {
    assert ("<<" + s)[2..] == s && ("<<" + s)[2] == s[0];
  }

  lemma MarkerIsFound(op: Operator, rest: string)
    requires Valid(op) && EndsMarker(op, rest)
    ensures var w := WrittenMarker(op.form, op.marker);
      && SpacedWord(w + rest, op.dash) == Some(Match(Delimiter(op.marker, op.dash), |w|))
      && w + rest != "" && (w + rest)[0] != '-'
  {
    var w := WrittenMarker(op.form, op.marker);
    ReadMarker(op, rest);
    MarkerBegins(op);
    assert (w + rest)[0] == w[0];
    NoBlankFirst(w + rest, op.dash);
  }

  lemma BlanksThenMarker(op: Operator, rest: string)
    requires Valid(op) && EndsMarker(op, rest)
    ensures var s := op.blanks + (WrittenMarker(op.form, op.marker) + rest);
      && SpacedWord(s, op.dash) == Some(Match(Delimiter(op.marker, op.dash), |op.blanks| + |WrittenMarker(op.form, op.marker)|))
      && s != "" && s[0] != '-'
  {
    var w := WrittenMarker(op.form, op.marker);
    MarkerIsFound(op, rest);
    BlanksAreSpaces(op.blanks);
    SkipBlanks(op.blanks, w + rest, op.dash, Match(Delimiter(op.marker, op.dash), |w|));
    NoDash(op.blanks, w + rest);
  }

  lemma OperatorIsRead(op: Operator, rest: string)
    requires Valid(op) && EndsMarker(op, rest)
    ensures OperatorAt(Written(op) + rest) == Some(Match(Delimiter(op.marker, op.dash), |Written(op)|))
  {
    var w := WrittenMarker(op.form, op.marker);
    var m := Match(Delimiter(op.marker, op.dash), |op.blanks| + |w|);
    BlanksThenMarker(op, rest);
    Regrouped(if op.dash then "<<-" else "<<", op.blanks, w, rest);
    if op.dash { DashedAt(op.blanks + (w + rest), m); } else { UndashedAt(op.blanks + (w + rest), m); }
  }

  lemma Regrouped(a: string, b: string, c: string, d: string)
    ensures a + (b + c) + d == a + (b + (c + d))
  {
  }

  lemma ReadWritten(op: Operator, rest: string)
    requires Valid(op) && EndsMarker(op, rest)
    ensures Delimiters(Written(op) + rest) == [Delimiter(op.marker, op.dash)] + Delimiters(rest)
  {
    OperatorIsRead(op, rest);
    assert (Written(op) + rest)[|Written(op)|..] == rest;
  }

  // ---------------------------------------------------------------- the lines that close

  lemma {:induction false} StripTakesTabs(n: nat, marker: string)
    requires marker == "" || marker[0] != '\t'
    ensures StripTabs(Repeat('\t', n) + marker) == marker
  {
    if n == 0 {
      assert Repeat('\t', 0) + marker == marker;
    } else {
      var line := Repeat('\t', n) + marker;
      assert line[0] == '\t' && line[1..] == Repeat('\t', n - 1) + marker;
      StripTakesTabs(n - 1, marker);
    }
  }

  lemma {:induction false} StrippedHasTabs(line: string) returns (n: nat)
    ensures line == Repeat('\t', n) + StripTabs(line)
    ensures StripTabs(line) == "" || StripTabs(line)[0] != '\t'
  {
    if line != "" && line[0] == '\t' {
      var m := StrippedHasTabs(line[1..]);
      n := m + 1;
      assert line == ['\t'] + line[1..];
    } else {
      n := 0;
    }
  }

  predicate BeginsWithTab(marker: string) {
    marker != "" && marker[0] == '\t'
  }

  /** The marker, with tabs before it if the operator has a dash. */
  ghost predicate ClosesWritten(line: string, d: Delimiter) {
    if d.stripTabs then exists n: nat :: line == Repeat('\t', n) + d.marker else line == d.marker
  }

  /** A line closes a heredoc exactly when it is so written, and no line does if a dashed marker begins with a tab. */
  lemma ClosesExactlyWhen(line: string, d: Delimiter)
    ensures Closes(line, d) <==> ClosesWritten(line, d) && !(d.stripTabs && BeginsWithTab(d.marker))
  {
    if d.stripTabs {
      var n := StrippedHasTabs(line);
      if ClosesWritten(line, d) && !BeginsWithTab(d.marker) {
        var k: nat :| line == Repeat('\t', k) + d.marker;
        StripTakesTabs(k, d.marker);
      }
    }
  }

  /** The lines of one heredoc body: none closes it but the last. */
  ghost predicate IsBody(body: seq<string>, closing: string, d: Delimiter) {
    (forall i :: 0 <= i < |body| ==> !ClosesWritten(body[i], d)) && ClosesWritten(closing, d) && !(d.stripTabs && BeginsWithTab(d.marker))
  }

  /** The bodies of an opening line, one after the other in the order of its operators. */
  function BodyLines(bodies: seq<seq<string>>, closings: seq<string>): seq<string>
    requires |bodies| == |closings|
  {
    if bodies == [] then [] else bodies[0] + ([closings[0]] + BodyLines(bodies[1..], closings[1..]))
  }

  ghost predicate AreBodies(bodies: seq<seq<string>>, closings: seq<string>, ds: seq<Delimiter>)
    requires |bodies| == |closings| == |ds|
  {
    ds == [] || (IsBody(bodies[0], closings[0], ds[0]) && AreBodies(bodies[1..], closings[1..], ds[1..]))
  }

  /** An opening line and its bodies make one chunk, and the lines after them are split by themselves. */
  lemma WrittenHeredocIsOneChunk(texts: seq<string>, ops: seq<Operator>, bodies: seq<seq<string>>, closings: seq<string>, rest: seq<string>)
    requires |texts| == |ops| + 1 && ValidLine(texts, ops) && |bodies| == |closings| == |ops| && AreBodies(bodies, closings, Read(ops))
    ensures var heredoc := [Line(texts, ops)] + BodyLines(bodies, closings);
      Chunks(heredoc + rest) == [heredoc] + Chunks(rest)
  {
    WrittenDelimitersAreRead(texts, ops);
    BodiesAreClaimed(bodies, closings, Read(ops), rest);
    FirstChunk(Line(texts, ops), BodyLines(bodies, closings), rest);
  }

  lemma FirstChunk(opening: string, body: seq<string>, rest: seq<string>)
    requires BodyLength(Delimiters(opening), body + rest) == |body|
    ensures Chunks([opening] + body + rest) == [[opening] + body] + Chunks(rest)
  {
    var lines := [opening] + body + rest;
    assert lines[0] == opening && lines[1..] == body + rest;
    assert lines[..1 + |body|] == [opening] + body && lines[1 + |body|..] == rest;
  }

  lemma {:induction false} BodiesAreClaimed(bodies: seq<seq<string>>, closings: seq<string>, ds: seq<Delimiter>, rest: seq<string>)
    requires |bodies| == |closings| == |ds| && AreBodies(bodies, closings, ds)
    ensures BodyLength(ds, BodyLines(bodies, closings) + rest) == |BodyLines(bodies, closings)|
    decreases |ds|
  {
    if ds != [] {
      var more := BodyLines(bodies[1..], closings[1..]);
      BodiesAreClaimed(bodies[1..], closings[1..], ds[1..], rest);
      BodyIsClaimed(bodies[0], closings[0], ds, more + rest);
      assert BodyLines(bodies, closings) + rest == bodies[0] + ([closings[0]] + (more + rest));
    }
  }

  lemma {:induction false} BodyIsClaimed(body: seq<string>, closing: string, ds: seq<Delimiter>, rest: seq<string>)
    requires ds != [] && IsBody(body, closing, ds[0])
    ensures BodyLength(ds, body + ([closing] + rest)) == |body| + 1 + BodyLength(ds[1..], rest)
    decreases |body|
  {
    var lines := body + ([closing] + rest);
    if body == [] {
      ClosesExactlyWhen(closing, ds[0]);
      assert lines[0] == closing && lines[1..] == rest;
    } else {
      ClosesExactlyWhen(body[0], ds[0]);
      assert lines[0] == body[0] && lines[1..] == body[1..] + ([closing] + rest);
      forall i | 0 <= i < |body[1..]| ensures !ClosesWritten(body[1..][i], ds[0]) { assert body[1..][i] == body[i + 1]; }
      BodyIsClaimed(body[1..], closing, ds, rest);
    }
  }
}
