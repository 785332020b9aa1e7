/**
 * What protecting does to a command as it is written: pieces without quotes and quoted
 * pieces, perhaps with a last quote that is never closed
 * (src/shared/quote-protection.ts, lines 28-103).
 */
module QuotedText {
  import opened Text
  import opened QuoteProtection

  datatype Piece = Bare(text: string) | InDouble(body: string) | InSingle(body: string)

  /** The end of a command: nothing, or an unclosed quote. */
  datatype Tail = Nothing | OpenDouble(body: string) | OpenSingle(body: string)

  predicate Lacks(s: string, c: char) {
    forall i :: 0 <= i < |s| ==> s[i] != c
  }

  /** Every double quote in the text follows a backslash. */
  predicate Escaped(body: string) {
    forall i :: 0 <= i < |body| && body[i] == '"' ==> i > 0 && body[i - 1] == '\\'
  }

  predicate ValidPiece(piece: Piece) {
    match piece
    case Bare(text) => Lacks(text, '"') && Lacks(text, '\'')
    case InDouble(body) => Escaped(body) && (body != "" ==> body[|body| - 1] != '\\')
    case InSingle(body) => Lacks(body, '\'')
  }

  predicate ValidTail(tail: Tail) {
    match tail
    case Nothing => true
    case OpenDouble(body) => Escaped(body)
    case OpenSingle(body) => Lacks(body, '\'')
  }

  function Written(piece: Piece): string {
    match piece
    case Bare(text) => text
    case InDouble(body) => "\"" + (body + "\"")
    case InSingle(body) => "'" + (body + "'")
  }

  function WrittenTail(tail: Tail): string {
    match tail
    case Nothing => ""
    case OpenDouble(body) => "\"" + body
    case OpenSingle(body) => "'" + body
  }

  /** A command as a writer puts it down. */
  function Command(pieces: seq<Piece>, tail: Tail): string {
    if pieces == [] then WrittenTail(tail) else Written(pieces[0]) + Command(pieces[1..], tail)
  }

  /** The text with each line break as its placeholder. */
  function Hidden(body: string): string {
    if body == "" then ""
    else (if body[0] == '\n' then "___NEWLINE___" else if body[0] == '\r' then "___CARRIAGE_RETURN___" else [body[0]])
         + Hidden(body[1..])
  }

  function Shown(piece: Piece): string {
    match piece
    case Bare(text) => text
    case InDouble(body) => "\"" + (Hidden(body) + "\"")
    case InSingle(body) => "'" + (Hidden(body) + "'")
  }

  function ShownTail(tail: Tail): string {
    match tail
    case Nothing => ""
    case OpenDouble(body) => "\"" + Hidden(body)
    case OpenSingle(body) => "'" + Hidden(body)
  }

  function ShownCommand(pieces: seq<Piece>, tail: Tail): string {
    if pieces == [] then ShownTail(tail) else Shown(pieces[0]) + ShownCommand(pieces[1..], tail)
  }

  predicate Valid(pieces: seq<Piece>, tail: Tail) {
    (forall i :: 0 <= i < |pieces| ==> ValidPiece(pieces[i])) && ValidTail(tail)
  }

  /**
   * The line breaks inside quotes become placeholders, also those in a quote that is never
   * closed, and all other characters stay as they are.
   */
  lemma QuotedBreaksAreHidden(pieces: seq<Piece>, tail: Tail)
    requires Valid(pieces, tail)
    ensures Protected(Command(pieces, tail)) == ShownCommand(pieces, tail)
  {
    ProtectedIsRun(Command(pieces, tail));
    RunPieces(pieces, tail, ' ');
  }

  // ---------------------------------------------------------------- the scanner from any state on

  /** What is written for the rest of a command, from a quote state and the character before. */
  function Run(q: Quote, prev: char, s: string): string
    decreases |s|
  {
    if s == "" then ""
    else
      (if q == Outside then [s[0]]
       else if s[0] == '\n' then NEWLINE_PLACEHOLDER
       else if s[0] == '\r' then CARRIAGE_RETURN_PLACEHOLDER
       else [s[0]])
      + Run(After(q, prev, s[0]), s[0], s[1..])
  }

  lemma ProtectedIsRun(command: string)
    ensures Protected(command) == Run(Outside, ' ', command)
  {
    RestIsRun(command, 0);
    assert Items(command)[0..] == Items(command) && command[0..] == command;
  }

  lemma {:induction false} RestIsRun(command: string, i: nat)
    requires i <= |command|
    ensures Render(Items(command)[i..], NEWLINE_PLACEHOLDER, CARRIAGE_RETURN_PLACEHOLDER)
         == Run(QuoteAt(command, i), if i >= 1 then command[i - 1] else ' ', command[i..])
    decreases |command| - i
  {
    if i < |command| {
      RestIsRun(command, i + 1);
      var rest := Items(command)[i..];
      assert rest[0] == ItemAt(command, i) && rest[1..] == Items(command)[i + 1..];
      assert command[i..][0] == command[i] && command[i..][1..] == command[i + 1..];
    }
  }

  lemma {:induction false} RunPieces(pieces: seq<Piece>, tail: Tail, prev: char)
    requires Valid(pieces, tail)
    ensures Run(Outside, prev, Command(pieces, tail)) == ShownCommand(pieces, tail)
    decreases |pieces|
  {
    if pieces == [] {
      RunTail(tail, prev);
    } else {
      var rest := Command(pieces[1..], tail);
      forall p: char ensures Run(Outside, p, rest) == ShownCommand(pieces[1..], tail) {
        RunPieces(pieces[1..], tail, p);
      }
      assert ValidPiece(pieces[0]);
      RunPiece(pieces[0], prev, rest, ShownCommand(pieces[1..], tail));
    }
  }

  lemma RunPiece(piece: Piece, prev: char, rest: string, shown: string)
    requires ValidPiece(piece) && forall p: char :: Run(Outside, p, rest) == shown
    ensures Run(Outside, prev, Written(piece) + rest) == Shown(piece) + shown
  {
    match piece
    case Bare(text) => RunBare(text, prev, rest, shown);
    case InDouble(body) => RunQuoted(Double, '"', prev, body, rest, shown);
    case InSingle(body) => RunQuoted(Single, '\'', prev, body, rest, shown);
  }

  lemma {:induction false} RunBare(text: string, prev: char, rest: string, shown: string)
    requires Lacks(text, '"') && Lacks(text, '\'') && forall p: char :: Run(Outside, p, rest) == shown
    ensures Run(Outside, prev, text + rest) == text + shown
    decreases |text|
  {
    if text == "" {
      assert text + rest == rest && text + shown == shown;
    } else {
      RunBare(text[1..], text[0], rest, shown);
      assert (text + rest)[1..] == text[1..] + rest;
      Associates([text[0]], text[1..], shown);
      assert [text[0]] + text[1..] == text;
    }
  }

  /** No character of the body closes the quote. */
  predicate StaysOpen(q: Quote, prev: char, body: string)
    decreases |body|
  {
    body == "" || (After(q, prev, body[0]) == q && StaysOpen(q, body[0], body[1..]))
  }

  lemma {:induction false} EscapedStaysOpen(body: string, i: nat)
    requires Escaped(body) && i <= |body|
    ensures StaysOpen(Double, if i == 0 then '"' else body[i - 1], body[i..])
    decreases |body| - i
  {
    if i < |body| {
      EscapedStaysOpen(body, i + 1);
      assert body[i..][0] == body[i] && body[i..][1..] == body[i + 1..];
    }
  }

  lemma {:induction false} SingleStaysOpen(prev: char, body: string)
    requires Lacks(body, '\'')
    ensures StaysOpen(Single, prev, body)
    decreases |body|
  {
    if body != "" { SingleStaysOpen(body[0], body[1..]); }
  }

  function Glyphs(c: char): string {
    if c == '\n' then "___NEWLINE___" else if c == '\r' then "___CARRIAGE_RETURN___" else [c]
  }

  lemma RunInside(q: Quote, prev: char, c: char, rest: string)
    requires q != Outside && After(q, prev, c) == q
    ensures Run(q, prev, [c] + rest) == Glyphs(c) + Run(q, c, rest)
  {
    assert ([c] + rest)[1..] == rest;
  }

  lemma HiddenFirst(c: char, rest: string)
    ensures Hidden([c] + rest) == Glyphs(c) + Hidden(rest)
  {
    assert ([c] + rest)[1..] == rest;
  }

  lemma {:induction false} RunBody(q: Quote, prev: char, body: string, rest: string)
    requires q != Outside && StaysOpen(q, prev, body)
    ensures Run(q, prev, body + rest) == Hidden(body) + Run(q, if body == "" then prev else body[|body| - 1], rest)
    decreases |body|
  {
    if body == "" {
      assert body + rest == rest;
    } else {
      var c, more := body[0], body[1..];
      RunBody(q, c, more, rest);
      RunInside(q, prev, c, more + rest);
      HiddenFirst(c, more);
      assert [c] + more == body;
      Associates([c], more, rest);
      Associates(Glyphs(c), Hidden(more), Run(q, body[|body| - 1], rest));
    }
  }

  lemma BodyStaysOpen(q: Quote, c: char, body: string)
    requires (q == Double && c == '"' && Escaped(body)) || (q == Single && c == '\'' && Lacks(body, '\''))
    ensures StaysOpen(q, c, body)
  {
    if q == Double {
      EscapedStaysOpen(body, 0);
      assert body[0..] == body;
    } else {
      SingleStaysOpen(c, body);
    }
  }

  lemma RunOpened(q: Quote, c: char, prev: char, s: string)
    requires (q == Double && c == '"') || (q == Single && c == '\'')
    ensures Run(Outside, prev, [c] + s) == [c] + Run(q, c, s)
  {
    assert ([c] + s)[1..] == s;
  }

  lemma RunClosed(q: Quote, c: char, prev: char, rest: string, shown: string)
    requires (q == Double && c == '"' && prev != '\\') || (q == Single && c == '\'')
    requires forall p: char :: Run(Outside, p, rest) == shown
    ensures Run(q, prev, [c] + rest) == [c] + shown
  {
    assert ([c] + rest)[1..] == rest;
  }

  lemma RunQuoted(q: Quote, c: char, prev: char, body: string, rest: string, shown: string)
    requires (q == Double && c == '"' && ValidPiece(InDouble(body))) || (q == Single && c == '\'' && ValidPiece(InSingle(body)))
    requires forall p: char :: Run(Outside, p, rest) == shown
    ensures Run(Outside, prev, [c] + (body + [c]) + rest) == [c] + (Hidden(body) + [c]) + shown
  {
    Regroup([c], body, [c], rest);
    RunOpened(q, c, prev, body + ([c] + rest));
    BodyStaysOpen(q, c, body);
    RunBody(q, c, body, [c] + rest);
    RunClosed(q, c, if body == "" then c else body[|body| - 1], rest, shown);
    Regroup([c], Hidden(body), [c], shown);
  }

  lemma Regroup(a: string, b: string, c: string, d: string)
    ensures a + (b + c) + d == a + (b + (c + d))
  {
  }

  lemma RunTail(tail: Tail, prev: char)
    requires ValidTail(tail)
    ensures Run(Outside, prev, WrittenTail(tail)) == ShownTail(tail)
  {
    match tail
    case Nothing =>
    case OpenDouble(body) => RunOpen(Double, '"', prev, body);
    case OpenSingle(body) => RunOpen(Single, '\'', prev, body);
  }

  lemma RunOpen(q: Quote, c: char, prev: char, body: string)
    requires (q == Double && c == '"' && Escaped(body)) || (q == Single && c == '\'' && Lacks(body, '\''))
    ensures Run(Outside, prev, [c] + body) == [c] + Hidden(body)
  {
    RunOpened(q, c, prev, body);
    BodyStaysOpen(q, c, body);
    RunBody(q, c, body, "");
    assert body + "" == body && Hidden(body) + "" == Hidden(body);
  }

  // ---------------------------------------------------------------- every command is so written

  /** The first position of the character in the text, or the length. */
  lemma {:induction false} FirstOf(s: string, c: char, escapes: bool) returns (n: nat)
    ensures n <= |s|
    ensures n < |s| ==> s[n] == c && (escapes && n > 0 ==> s[n - 1] != '\\')
    ensures forall i :: 0 <= i < n && s[i] == c ==> escapes && i > 0 && s[i - 1] == '\\'
    decreases |s|
  {
    if s == "" {
      n := 0;
    } else {
      n := FirstOf(s[..|s| - 1], c, escapes);
      if n == |s| - 1 && (s[n] != c || (escapes && n > 0 && s[n - 1] == '\\')) { n := n + 1; }
    }
  }

  lemma {:induction false} BareLength(s: string) returns (n: nat)
    ensures n <= |s| && Lacks(s[..n], '"') && Lacks(s[..n], '\'')
    ensures n < |s| ==> s[n] == '"' || s[n] == '\''
    decreases |s|
  {
    if s == "" || s[0] == '"' || s[0] == '\'' {
      n := 0;
    } else {
      var m := BareLength(s[1..]);
      n := m + 1;
      assert forall i :: 0 < i < n ==> s[..n][i] == s[1..][..m][i - 1];
    }
  }

  /** So the law fixes what protecting does to any command at all. */
  lemma {:induction false} EveryCommandIsWritten(s: string) returns (pieces: seq<Piece>, tail: Tail)
    ensures Valid(pieces, tail) && Command(pieces, tail) == s
    decreases |s|
  {
    var n := BareLength(s);
    if n == |s| {
      pieces, tail := [Bare(s)], Nothing;
      assert s[..n] == s && pieces[1..] == [] && Command([], tail) == "";
    } else {
      var body := s[n + 1..];
      var m := FirstOf(body, s[n], s[n] == '"');
      if m == |body| {
        tail := UnclosedAt(s[n], body);
        pieces := [Bare(s[..n])];
        assert pieces[1..] == [] && Command([], tail) == [s[n]] + body;
        assert s == s[..n] + ([s[n]] + body);
      } else {
        var more, end := EveryCommandIsWritten(body[m + 1..]);
        var quoted := ClosedAt(s[n], body, m);
        pieces, tail := [Bare(s[..n]), quoted] + more, end;
        CutAtQuote(s, n, m);
        PiecesInFront(Bare(s[..n]), quoted, more, end);
      }
    }
  }

  lemma UnclosedAt(c: char, body: string) returns (tail: Tail)
    requires c == '"' || c == '\''
    requires forall i :: 0 <= i < |body| && body[i] == c ==> c == '"' && i > 0 && body[i - 1] == '\\'
    ensures ValidTail(tail) && WrittenTail(tail) == [c] + body
  {
    tail := if c == '"' then OpenDouble(body) else OpenSingle(body);
  }

  lemma ClosedAt(c: char, body: string, m: nat) returns (piece: Piece)
    requires (c == '"' || c == '\'') && m < |body| && body[m] == c && (c == '"' && m > 0 ==> body[m - 1] != '\\')
    requires forall i :: 0 <= i < m && body[i] == c ==> c == '"' && i > 0 && body[i - 1] == '\\'
    ensures ValidPiece(piece) && Written(piece) == [c] + (body[..m] + [c])
  {
    piece := if c == '"' then InDouble(body[..m]) else InSingle(body[..m]);
  }

  lemma PiecesInFront(a: Piece, b: Piece, more: seq<Piece>, tail: Tail)
    requires ValidPiece(a) && ValidPiece(b) && Valid(more, tail)
    ensures Valid([a, b] + more, tail) && Command([a, b] + more, tail) == Written(a) + (Written(b) + Command(more, tail))
  {
    assert ([a, b] + more)[1..] == [b] + more && ([b] + more)[1..] == more;
  }

  lemma CutAtQuote(s: string, n: nat, m: nat)
    requires n < |s| && m < |s[n + 1..]| && s[n + 1..][m] == s[n]
    ensures var body := s[n + 1..]; s == s[..n] + (([s[n]] + (body[..m] + [s[n]])) + body[m + 1..])
  {
  }
}
