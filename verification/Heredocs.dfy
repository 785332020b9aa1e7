/**
 * Splitting a command into lines that keep their heredoc bodies
 * (src/shared/parse-command.ts, lines 67-125).
 */
module Heredocs {
  import opened Text

  datatype Delimiter = Delimiter(marker: string, stripTabs: bool)

  // ---------------------------------------------------------------- heredoc operators on a line

  /** A delimiter and the number of characters read up to its end. */
  datatype Match = Match(delimiter: Delimiter, end: nat)

  predicate IsBare(c: char) {
    !IsSpace(c) && c !in ";&|()<>"
  }

  /** The length of the longest run of bare characters at the front. */
  function BareLength(s: string): (n: nat)
    ensures n <= |s|
  {
    if s != "" && IsBare(s[0]) then 1 + BareLength(s[1..]) else 0
  }

  /** A quoted word at the front: non-empty text up to the same quote. */
  function QuotedWord(s: string, stripTabs: bool): (m: Option<Match>)
    requires s != ""
    ensures m.Some? ==> m.value.delimiter.marker != "" && 0 < m.value.end <= |s|
  {
    var n := Find(s[1..], s[0]);
    if 0 < n < |s| - 1 then Some(Match(Delimiter(s[1..1 + n], stripTabs), n + 2)) else None
  }

  function BareWord(s: string, stripTabs: bool): (m: Option<Match>)
    ensures m.Some? ==> m.value.delimiter.marker != "" && 0 < m.value.end <= |s|
  {
    var n := BareLength(s);
    if n > 0 then Some(Match(Delimiter(s[..n], stripTabs), n)) else None
  }

  function Further(m: Option<Match>, n: nat): Option<Match> {
    if m.None? then None else Some(m.value.(end := m.value.end + n))
  }

  /** The marker alternatives in the order in which they are tried. */
  function Word(s: string, stripTabs: bool): (m: Option<Match>)
    ensures m.Some? ==> m.value.delimiter.marker != "" && 0 < m.value.end <= |s|
  {
    if s != "" && (s[0] == '\'' || s[0] == '"') && QuotedWord(s, stripTabs).Some? then QuotedWord(s, stripTabs)
    else if s != "" && s[0] == '\\' && BareWord(s[1..], stripTabs).Some? then Further(BareWord(s[1..], stripTabs), 1)
    else BareWord(s, stripTabs)
  }

  function SpacedWord(s: string, stripTabs: bool): (m: Option<Match>)
    ensures m.Some? ==> m.value.delimiter.marker != "" && 0 < m.value.end <= |s|
  {
    if s != "" && IsSpace(s[0]) then Further(SpacedWord(s[1..], stripTabs), 1) else Word(s, stripTabs)
  }

  /** A heredoc operator at the front; a dash that leaves no marker belongs to the marker. */
  function OperatorAt(s: string): (m: Option<Match>)
    ensures m.Some? ==> m.value.delimiter.marker != "" && 0 < m.value.end <= |s|
  {
    if |s| < 2 || s[0] != '<' || s[1] != '<' then None
    else if |s| > 2 && s[2] == '-' && SpacedWord(s[3..], true).Some? then Further(SpacedWord(s[3..], true), 3)
    else Further(SpacedWord(s[2..], false), 2)
  }

  /** The leftmost operator. */
  function NextOperator(s: string): (m: Option<Match>)
    ensures m.Some? ==> m.value.delimiter.marker != "" && 0 < m.value.end <= |s|
  {
    if OperatorAt(s).Some? then OperatorAt(s)
    else if s == "" then None
    else Further(NextOperator(s[1..]), 1)
  }

  function Delimiters(line: string): (ds: seq<Delimiter>)
    ensures forall d :: d in ds ==> d.marker != ""
  {
    var m := NextOperator(line);
    if m.None? then [] else [m.value.delimiter] + Delimiters(line[m.value.end..])
  }

  method ExtractHeredocDelimiters(line: string) returns (delimiters: seq<Delimiter>)
    ensures delimiters == Delimiters(line)
  {
    delimiters := [];
    var lastIndex := 0;
    var m := NextOperator(line);
    assert line[0..] == line;
    while m.Some?
      invariant 0 <= lastIndex <= |line|
      invariant m == NextOperator(line[lastIndex..])
      invariant delimiters + Delimiters(line[lastIndex..]) == Delimiters(line)
      decreases |line| - lastIndex
    {
      NextDelimiter(delimiters, line, lastIndex);
      if m.value.delimiter.marker != "" {
        delimiters := delimiters + [m.value.delimiter];
      }
      lastIndex := lastIndex + m.value.end;
      m := NextOperator(line[lastIndex..]);
    }
    NoDelimiter(delimiters, line[lastIndex..]);
  }

  lemma NextDelimiter(found: seq<Delimiter>, line: string, at: nat)
    requires at <= |line| && NextOperator(line[at..]).Some?
    ensures var m := NextOperator(line[at..]).value;
      at + m.end <= |line|
      && found + Delimiters(line[at..]) == (found + [m.delimiter]) + Delimiters(line[at + m.end..])
  {
    var m := NextOperator(line[at..]).value;
    DropDrop(line, at, m.end);
    Associates(found, [m.delimiter], Delimiters(line[at + m.end..]));
  }

  lemma NoDelimiter(found: seq<Delimiter>, rest: string)
    requires NextOperator(rest).None?
    ensures found + Delimiters(rest) == found
  {
  }

  predicate Lacks(s: string, c: char) {
    forall i :: 0 <= i < |s| ==> s[i] != c
  }

  /** A quoted operator, as a writer puts it on the opening line. */
  function Operator(d: Delimiter): string {
    (if d.stripTabs then "<<-" else "<<") + "'" + d.marker + "'"
  }

  /** The operators of `ds`, each after a piece of text without `<`. */
  function OpeningLine(texts: seq<string>, ds: seq<Delimiter>): string
    requires |texts| == |ds|
  {
    if ds == [] then "" else texts[0] + (Operator(ds[0]) + OpeningLine(texts[1..], ds[1..]))
  }

  /** Reading an opening line gives back, in order, exactly the delimiters it was written with. */
  lemma {:induction false} DelimitersOfOpeningLine(texts: seq<string>, ds: seq<Delimiter>)
    requires |texts| == |ds|
    requires forall i :: 0 <= i < |ds| ==> Lacks(texts[i], '<') && ds[i].marker != "" && Lacks(ds[i].marker, '\'')
    ensures Delimiters(OpeningLine(texts, ds)) == ds
  {
    if ds != [] {
      var rest := OpeningLine(texts[1..], ds[1..]);
      DelimitersOfOpeningLine(texts[1..], ds[1..]);
      ReadOperator(ds[0], rest);
      SkipText(texts[0], Operator(ds[0]) + rest);
      assert [ds[0]] + ds[1..] == ds;
    }
  }

  lemma {:induction false} SkipText(text: string, s: string)
    requires Lacks(text, '<')
    ensures Delimiters(text + s) == Delimiters(s)
  {
    if text == "" {
      assert text + s == s;
    } else {
      SkipText(text[1..], s);
      assert (text + s)[0] == text[0];
      assert (text + s)[1..] == text[1..] + s;
      SkipCharacter(text + s);
    }
  }

  lemma SkipCharacter(s: string)
    requires s != "" && s[0] != '<'
    ensures Delimiters(s) == Delimiters(s[1..])
  {
    var m := NextOperator(s[1..]);
    assert NextOperator(s) == Further(m, 1);
    if m.Some? { assert s[1..][m.value.end..] == s[1 + m.value.end..]; }
  }

  lemma ReadOperator(d: Delimiter, rest: string)
    requires d.marker != "" && Lacks(d.marker, '\'')
    ensures Delimiters(Operator(d) + rest) == [d] + Delimiters(rest)
  {
    var quoted := "'" + d.marker + "'" + rest;
    var lead := if d.stripTabs then "<<-" else "<<";
    var line := Operator(d) + rest;
    assert line == lead + quoted;
    assert line[|lead|..] == quoted && line[..|lead|] == lead;
    ReadQuoted(d, rest);
    assert SpacedWord(quoted, d.stripTabs) == Word(quoted, d.stripTabs);
    assert OperatorAt(line) == Further(Word(quoted, d.stripTabs), |lead|);
    assert line[|Operator(d)|..] == rest;
  }

  lemma ReadQuoted(d: Delimiter, rest: string)
    requires d.marker != "" && Lacks(d.marker, '\'')
    ensures Word("'" + d.marker + "'" + rest, d.stripTabs) == Some(Match(d, |d.marker| + 2))
  {
    var s := "'" + d.marker + "'" + rest;
    assert s[1..] == d.marker + ("'" + rest);
    FindAfter(d.marker, '\'', rest);
    assert s[1..1 + |d.marker|] == d.marker;
  }

  lemma {:induction false} FindAfter(a: string, c: char, rest: string)
    requires Lacks(a, c)
    ensures Find(a + ([c] + rest), c) == |a|
  {
    var s := a + ([c] + rest);
    if a == "" {
      assert s[0] == c;
    } else {
      assert s[0] == a[0] && s[1..] == a[1..] + ([c] + rest);
      FindAfter(a[1..], c, rest);
    }
  }

  // ---------------------------------------------------------------- chunks of lines

  function StripTabs(line: string): string {
    if line != "" && line[0] == '\t' then StripTabs(line[1..]) else line
  }

  predicate Closes(line: string, d: Delimiter) {
    (if d.stripTabs then StripTabs(line) else line) == d.marker
  }

  /** The delimiters still to be met after reading `body`, first in first out. */
  function Pending(ds: seq<Delimiter>, body: seq<string>): seq<Delimiter> {
    if ds == [] || body == [] then ds
    else Pending(if Closes(body[0], ds[0]) then ds[1..] else ds, body[1..])
  }

  /** The lines that `ds` claims from the front of `lines`. */
  function BodyLength(ds: seq<Delimiter>, lines: seq<string>): (n: nat)
    ensures n <= |lines|
  {
    if ds == [] || lines == [] then 0
    else 1 + BodyLength(if Closes(lines[0], ds[0]) then ds[1..] else ds, lines[1..])
  }

  /** The chunks of a command, each a run of its lines. */
  function Chunks(lines: seq<string>): (chunks: seq<seq<string>>)
    ensures forall chunk :: chunk in chunks ==> chunk != []
    decreases |lines|
  {
    if lines == [] then []
    else
      var n := 1 + BodyLength(Delimiters(lines[0]), lines[1..]);
      [lines[..n]] + Chunks(lines[n..])
  }

  function Joined(chunks: seq<seq<string>>): (texts: seq<string>)
    ensures |texts| == |chunks|
    ensures forall i :: 0 <= i < |chunks| ==> texts[i] == Join(chunks[i], "\n")
  {
    seq(|chunks|, i requires 0 <= i < |chunks| => Join(chunks[i], "\n"))
  }

  method SplitCommandPreservingHeredocs(command: string) returns (chunks: seq<string>)
    ensures chunks == Joined(Chunks(SplitLines(command)))
  {
    var lines := SplitLines(command);
    chunks := [];
    var currentChunk: seq<string> := [];
    var pendingDelimiters: seq<Delimiter> := [];
    ghost var done: seq<seq<string>> := [];
    for i := 0 to |lines|
      invariant chunks == Joined(done)
      invariant currentChunk == [] <==> pendingDelimiters == []
      invariant Chunks(lines) == done + Resume(currentChunk, pendingDelimiters, lines[i..])
    {
      var line := lines[i];
      ghost var rest := lines[i + 1..];
      assert lines[i..][0] == line && lines[i..][1..] == rest;
      if |pendingDelimiters| > 0 {
        ResumeStep(currentChunk, pendingDelimiters, lines[i..]);
      } else {
        OpenStep(lines[i..]);
        assert currentChunk + [line] == [line];
      }
      currentChunk := currentChunk + [line];
      if |pendingDelimiters| > 0 {
        var pending := pendingDelimiters[0];
        var candidate := if pending.stripTabs then StripTabs(line) else line;
        if candidate == pending.marker {
          pendingDelimiters := pendingDelimiters[1..];
          if |pendingDelimiters| == 0 {
            Finish(lines, done, currentChunk, rest);
            done := done + [currentChunk];
            chunks := chunks + [Join(currentChunk, "\n")];
            currentChunk := [];
          }
        }
        continue;
      }
      pendingDelimiters := ExtractHeredocDelimiters(line);
      if |pendingDelimiters| == 0 {
        Finish(lines, done, currentChunk, rest);
        done := done + [currentChunk];
        chunks := chunks + [Join(currentChunk, "\n")];
        currentChunk := [];
      }
    }
    if |currentChunk| > 0 {
      ResumeEnd(currentChunk, pendingDelimiters, lines[|lines|..]);
      JoinedAppend(done, currentChunk);
      done := done + [currentChunk];
      chunks := chunks + [Join(currentChunk, "\n")];
    }
    assert Chunks(lines) == done;
  }

  lemma JoinedAppend(chunks: seq<seq<string>>, chunk: seq<string>)
    ensures Joined(chunks + [chunk]) == Joined(chunks) + [Join(chunk, "\n")]
  {
  }

  lemma Finish(lines: seq<string>, done: seq<seq<string>>, current: seq<string>, rest: seq<string>)
    requires current != [] && Chunks(lines) == done + Resume(current, [], rest)
    ensures Chunks(lines) == (done + [current]) + Resume([], [], rest)
    ensures Joined(done + [current]) == Joined(done) + [Join(current, "\n")]
  {
    assert current + rest[..0] == current && rest[0..] == rest;
    assert Resume(current, [], rest) == [current] + Chunks(rest);
    Associates(done, [current], Chunks(rest));
    JoinedAppend(done, current);
  }

  lemma ResumeEnd(current: seq<string>, ds: seq<Delimiter>, lines: seq<string>)
    requires current != [] && lines == []
    ensures Resume(current, ds, lines) == [current]
  {
    assert current + lines[..0] == current && lines[0..] == [];
  }

  /** What is left to produce in the middle of a chunk. */
  ghost function Resume(current: seq<string>, ds: seq<Delimiter>, lines: seq<string>): seq<seq<string>> {
    if current == [] then Chunks(lines)
    else var n := BodyLength(ds, lines); [current + lines[..n]] + Chunks(lines[n..])
  }

  lemma ResumeStep(current: seq<string>, ds: seq<Delimiter>, lines: seq<string>)
    requires current != [] && ds != [] && lines != []
    ensures Resume(current, ds, lines)
         == Resume(current + [lines[0]], if Closes(lines[0], ds[0]) then ds[1..] else ds, lines[1..])
  {
    var n := BodyLength(ds, lines);
    assert current + lines[..n] == (current + [lines[0]]) + lines[1..][..n - 1];
    assert lines[n..] == lines[1..][n - 1..];
  }

  lemma OpenStep(lines: seq<string>)
    requires lines != []
    ensures Chunks(lines) == Resume([lines[0]], Delimiters(lines[0]), lines[1..])
  {
    var n := BodyLength(Delimiters(lines[0]), lines[1..]);
    FirstChunk(lines, Delimiters(lines[0]), n);
    TakeFirst(lines, n);
    DropDrop(lines, 1, n);
  }

  lemma FirstChunk(lines: seq<string>, ds: seq<Delimiter>, n: nat)
    requires lines != [] && ds == Delimiters(lines[0]) && n == BodyLength(ds, lines[1..])
    ensures 1 + n <= |lines| && Chunks(lines) == [lines[..1 + n]] + Chunks(lines[1 + n..])
  {
    var m := 1 + BodyLength(Delimiters(lines[0]), lines[1..]);
    assert m == 1 + n;
    assert lines[m..] == lines[1 + n..];
  }

  lemma TakeFirst<T>(s: seq<T>, n: nat)
    requires n < |s|
    ensures s[..1 + n] == [s[0]] + s[1..][..n]
  {
  }

  // ---------------------------------------------------------------- what the chunks are

  /**
   * An opening line and a body that ends with the very line that meets the last
   * of its delimiters; with no delimiters, the line alone.
   */
  predicate Terminated(chunk: seq<string>) {
    chunk != [] && Pending(Delimiters(chunk[0]), chunk[1..]) == [] &&
    forall j :: 1 <= j < |chunk| ==> Pending(Delimiters(chunk[0]), chunk[1..j]) != []
  }

  predicate Unterminated(chunk: seq<string>) {
    chunk != [] && Pending(Delimiters(chunk[0]), chunk[1..]) != []
  }

  predicate WellChunked(chunks: seq<seq<string>>) {
    forall i :: 0 <= i < |chunks| ==> Terminated(chunks[i]) || (i == |chunks| - 1 && Unterminated(chunks[i]))
  }

  /** The split is the only way to cut the lines, in order, into such chunks. */
  lemma ChunksCharacterised(lines: seq<string>, chunks: seq<seq<string>>)
    ensures chunks == Chunks(lines) <==> Concat(chunks) == lines && WellChunked(chunks)
  {
    ChunksPartition(lines);
    ChunksWellChunked(lines);
    if Concat(chunks) == lines && WellChunked(chunks) {
      ChunksUnique(lines, chunks);
    }
  }

  lemma {:induction false} ChunksPartition(lines: seq<string>)
    ensures Concat(Chunks(lines)) == lines
    decreases |lines|
  {
    if lines != [] {
      var n := 1 + BodyLength(Delimiters(lines[0]), lines[1..]);
      ChunksPartition(lines[n..]);
      ConcatCons(lines[..n], Chunks(lines[n..]));
      assert lines[..n] + lines[n..] == lines;
    }
  }

  lemma {:induction false} ChunksWellChunked(lines: seq<string>)
    ensures WellChunked(Chunks(lines))
    decreases |lines|
  {
    if lines != [] {
      var ds := Delimiters(lines[0]);
      var n := 1 + BodyLength(ds, lines[1..]);
      ChunksWellChunked(lines[n..]);
      var chunk := lines[..n];
      BodyClaims(ds, lines[1..]);
      assert chunk[1..] == lines[1..][..n - 1];
      forall j | 1 <= j < n ensures Pending(ds, chunk[1..j]) != [] {
        assert chunk[1..j] == lines[1..][..j - 1];
      }
      forall i | 0 <= i < |Chunks(lines)|
        ensures Terminated(Chunks(lines)[i]) || (i == |Chunks(lines)| - 1 && Unterminated(Chunks(lines)[i]))
      {
        if i > 0 { assert Chunks(lines)[i] == Chunks(lines[n..])[i - 1]; }
      }
    }
  }

  /** The claimed lines end where the delimiters run out, or are all that is left. */
  lemma {:induction false} BodyClaims(ds: seq<Delimiter>, lines: seq<string>)
    ensures var n := BodyLength(ds, lines);
      (Pending(ds, lines[..n]) == [] || n == |lines|) && forall j :: 0 <= j < n ==> Pending(ds, lines[..j]) != []
  {
    if ds != [] && lines != [] {
      var next := if Closes(lines[0], ds[0]) then ds[1..] else ds;
      BodyClaims(next, lines[1..]);
      var n := BodyLength(ds, lines);
      assert lines[..n][1..] == lines[1..][..n - 1];
      forall j | 0 <= j < n ensures Pending(ds, lines[..j]) != [] {
        if j > 0 { assert lines[..j][1..] == lines[1..][..j - 1]; }
      }
    }
  }

  lemma {:induction false} ChunksUnique(lines: seq<string>, chunks: seq<seq<string>>)
    requires Concat(chunks) == lines && WellChunked(chunks)
    ensures chunks == Chunks(lines)
    decreases |chunks|
  {
    if chunks != [] {
      assert Terminated(chunks[0]) || (|chunks| == 1 && Unterminated(chunks[0]));
      var n := |chunks[0]|;
      ChunkFront(chunks[0], Concat(chunks[1..]));
      assert lines[..n] == chunks[0] && lines[n..] == Concat(chunks[1..]);
      forall i | 0 <= i < |chunks[1..]|
        ensures Terminated(chunks[1..][i]) || (i == |chunks[1..]| - 1 && Unterminated(chunks[1..][i]))
      {
        assert chunks[1..][i] == chunks[i + 1];
      }
      ChunksUnique(lines[n..], chunks[1..]);
    }
  }

  lemma ChunkFront(chunk: seq<string>, rest: seq<string>)
    requires Terminated(chunk) || (rest == [] && Unterminated(chunk))
    ensures var lines := chunk + rest; 1 + BodyLength(Delimiters(lines[0]), lines[1..]) == |chunk|
  {
    var body, ds := chunk[1..], Delimiters(chunk[0]);
    assert (chunk + rest)[1..] == body + rest;
    assert (body + rest)[..|body|] == body;
    forall j | 0 <= j < |body| ensures Pending(ds, (body + rest)[..j]) != [] {
      assert (body + rest)[..j] == body[..j] == chunk[1..j + 1];
      PendingStaysEmpty(ds, body[..j], body[j..]);
      assert body[..j] + body[j..] == body;
    }
    BodyEnds(ds, body + rest, |body|);
  }

  lemma {:induction false} PendingStaysEmpty(ds: seq<Delimiter>, a: seq<string>, b: seq<string>)
    ensures Pending(ds, a) == [] ==> Pending(ds, a + b) == []
  {
    if ds != [] && a != [] {
      PendingStaysEmpty(if Closes(a[0], ds[0]) then ds[1..] else ds, a[1..], b);
      assert (a + b)[1..] == a[1..] + b;
    }
  }

  lemma {:induction false} BodyEnds(ds: seq<Delimiter>, lines: seq<string>, n: nat)
    requires n <= |lines|
    requires Pending(ds, lines[..n]) == [] || n == |lines|
    requires forall j :: 0 <= j < n ==> Pending(ds, lines[..j]) != []
    ensures BodyLength(ds, lines) == n
  {
    if n > 0 {
      assert lines[..0] == [] && Pending(ds, lines[..0]) != [];
      var next := if Closes(lines[0], ds[0]) then ds[1..] else ds;
      assert lines[..n][1..] == lines[1..][..n - 1];
      forall j | 0 <= j < n - 1 ensures Pending(next, lines[1..][..j]) != [] {
        assert lines[..j + 1][1..] == lines[1..][..j];
        assert Pending(ds, lines[..j + 1]) != [];
      }
      BodyEnds(next, lines[1..], n - 1);
    } else {
      assert lines[..0] == [];
    }
  }

  // ---------------------------------------------------------------- the classifier

  /** Looks at the first line only. */
  predicate ContainsHeredocOperator(command: string) {
    Delimiters(SplitLines(command)[0]) != []
  }

  /**
   * Splitter and classifier agree: a chunk is classified as a heredoc exactly when
   * its own first line opens one, and every other chunk is a single line.
   */
  lemma SplitterAndClassifierAgree(command: string, chunk: seq<string>)
    requires chunk in Chunks(SplitLines(command))
    ensures var text := Join(chunk, "\n");
      && SplitLines(text) == chunk
      && (ContainsHeredocOperator(text) <==> Delimiters(chunk[0]) != [])
      && (!ContainsHeredocOperator(text) ==> chunk == [text] && Breakless(text))
  {
    var lines := SplitLines(command);
    ChunkLines(lines, chunk);
    SplitJoinLines(chunk);
    ChunksWellChunked(lines);
    var i :| 0 <= i < |Chunks(lines)| && Chunks(lines)[i] == chunk;
    assert Terminated(chunk) || Unterminated(chunk);
    ChunkOfOpeningLine(chunk);
    if |chunk| == 1 {
      assert chunk[0] in chunk;
    }
  }

  lemma ChunkOfOpeningLine(chunk: seq<string>)
    requires chunk != [] && (Terminated(chunk) || Unterminated(chunk))
    ensures Delimiters(chunk[0]) == [] ==> |chunk| == 1
  {
    if |chunk| > 1 {
      assert Pending(Delimiters(chunk[0]), chunk[1..1]) == Delimiters(chunk[0]);
    }
  }

  lemma {:induction false} ChunkLines(lines: seq<string>, chunk: seq<string>)
    requires chunk in Chunks(lines)
    ensures chunk != [] && forall line :: line in chunk ==> line in lines
    decreases |lines|
  {
    var n := 1 + BodyLength(Delimiters(lines[0]), lines[1..]);
    if chunk != lines[..n] {
      ChunkLines(lines[n..], chunk);
    }
  }

  /** The chunks lose nothing: joined by newlines they are the command with its line breaks normalised. */
  lemma ChunksJoin(command: string)
    ensures Join(Joined(Chunks(SplitLines(command))), "\n") == NormalizeBreaks(command)
  {
    JoinChunks(SplitLines(command));
    JoinSplitLines(command);
  }

  lemma {:induction false} JoinChunks(lines: seq<string>)
    ensures Join(Joined(Chunks(lines)), "\n") == Join(lines, "\n")
    decreases |lines|
  {
    if lines != [] {
      var n := 1 + BodyLength(Delimiters(lines[0]), lines[1..]);
      JoinChunks(lines[n..]);
      assert Joined(Chunks(lines))[1..] == Joined(Chunks(lines[n..]));
      assert lines == lines[..n] + lines[n..];
      if n < |lines| {
        JoinAppend(lines[..n], lines[n..], "\n");
        assert Chunks(lines[n..]) != [];
      } else {
        assert lines[..n] == lines && Chunks(lines) == [lines];
        assert Joined(Chunks(lines)) == [Join(lines, "\n")];
      }
    }
  }
}
