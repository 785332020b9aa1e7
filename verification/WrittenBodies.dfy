/**
 * Where a command substitution ends, told by how its body is written: plain text, escaped
 * characters, quotes, and further substitutions
 * (src/shared/parse-command.ts, lines 326-373).
 */
module WrittenBodies {
  import opened Text
  import opened Substitutions

  datatype Piece = Bare(text: string) | Backslashed(c: char) | Quoted(quote: char, inner: string) | Nested(body: seq<Piece>)

  /** Text in which every backslash comes with a further character and the quote does not occur otherwise. */
  predicate Paired(inner: string, quote: char) {
    inner == ""
    || (inner[0] == '\\' && |inner| >= 2 && Paired(inner[2..], quote))
    || (inner[0] != '\\' && inner[0] != quote && Paired(inner[1..], quote))
  }

  predicate ValidPiece(piece: Piece)
    decreases piece
  {
    match piece
    case Bare(text) => forall i :: 0 <= i < |text| ==> text[i] !in "\\\"'`)" && !(text[i] == '$' && i + 1 < |text| && text[i + 1] == '(')
    case Backslashed(_) => true
    case Quoted(quote, inner) => quote in "\"'`" && Paired(inner, quote)
    case Nested(body) => ValidBody(body)
  }

  /** No dollar sign at the end of a piece of text is followed by a parenthesis at the beginning of the next. */
  predicate Apart(a: Piece, b: Piece) {
    a.Bare? && b.Bare? ==> b.text != "" && !(a.text != "" && a.text[|a.text| - 1] == '$' && b.text[0] == '(')
  }

  predicate ValidBody(body: seq<Piece>)
    decreases body
  {
    (forall i :: 0 <= i < |body| ==> ValidPiece(body[i])) && forall i :: 0 <= i < |body| - 1 ==> Apart(body[i], body[i + 1])
  }

  function Written(piece: Piece): string
    decreases piece
  {
    match piece
    case Bare(text) => text
    case Backslashed(c) => ['\\', c]
    case Quoted(quote, inner) => [quote] + inner + [quote]
    case Nested(body) => "$(" + WrittenBody(body) + ")"
  }

  function WrittenBody(body: seq<Piece>): string
    decreases body
  {
    if body == [] then "" else Written(body[0]) + WrittenBody(body[1..])
  }

  /** How a body goes on that is never closed. */
  datatype Tail = Nothing | LoneBackslash | OpenQuote(quote: char, inner: string, backslash: bool) | OpenBody(body: seq<Piece>, tail: Tail)

  predicate ValidTail(tail: Tail) {
    match tail
    case Nothing => true
    case LoneBackslash => true
    case OpenQuote(quote, inner, _) => quote in "\"'`" && Paired(inner, quote)
    case OpenBody(body, more) => ValidBody(body) && ValidTail(more)
  }

  function WrittenTail(tail: Tail): string {
    match tail
    case Nothing => ""
    case LoneBackslash => "\\"
    case OpenQuote(quote, inner, backslash) => [quote] + inner + if backslash then "\\" else ""
    case OpenBody(body, more) => "$(" + WrittenBody(body) + WrittenTail(more)
  }

  // ---------------------------------------------------------------- the law

  /** A written body ends at the parenthesis behind it, whatever comes before and after. */
  lemma WrittenBodyEnds(before: string, body: seq<Piece>, rest: string)
    requires ValidBody(body)
    ensures EndOf(before + (WrittenBody(body) + (")" + rest)), |before|) == Some(|before| + |WrittenBody(body)|)
  {
    var command, start, e := before + (WrittenBody(body) + (")" + rest)), |before|, |before| + |WrittenBody(body)|;
    assert command[e] == ')';
    WalkBody(command, start, start, body, 1);
    CloseAt(command, start, e, 1);
    assert IsEnd(command, start, e);
    EndIsUnique(command, start, e, EndOf(command, start).value);
  }

  /** A body that breaks off, in a quote, behind a backslash or in a further substitution, never ends. */
  lemma BrokenBodyNeverEnds(before: string, body: seq<Piece>, tail: Tail)
    requires ValidBody(body) && ValidTail(tail)
    ensures EndOf(before + (WrittenBody(body) + WrittenTail(tail)), |before|) == None
  {
    var command, start := before + (WrittenBody(body) + WrittenTail(tail)), |before|;
    TailBegins(tail);
    assert |WrittenTail(tail)| > 0 ==> command[start + |WrittenBody(body)|] == WrittenTail(tail)[0];
    WalkBody(command, start, start, body, 1);
    WalkTail(command, start, start + |WrittenBody(body)|, tail, 1);
    OpenNeverEnds(command, start);
  }

  lemma OpenNeverEnds(command: string, start: nat)
    requires start <= |command| && forall k :: start <= k <= |command| ==> Depth(command, start, k) > 0
    ensures NeverEnds(command, start)
  {
    forall e: nat ensures !IsEnd(command, start, e) {
      NotEnd(command, start, e);
    }
  }

  lemma NotEnd(command: string, start: nat, e: nat)
    requires start <= |command| && forall k :: start <= k <= |command| ==> Depth(command, start, k) > 0
    ensures !IsEnd(command, start, e)
  {
  }

  // ---------------------------------------------------------------- walking over what is written

  predicate Here(command: string, i: nat, s: string) {
    i + |s| <= |command| && forall k :: 0 <= k < |s| ==> command[i + k] == s[k]
  }

  lemma HerePart(command: string, i: nat, a: string, b: string)
    requires Here(command, i, a + b)
    ensures Here(command, i, a) && Here(command, i + |a|, b)
  {
    forall k | 0 <= k < |a| ensures command[i + k] == a[k] { assert (a + b)[k] == a[k]; }
    forall k | 0 <= k < |b| ensures command[i + |a| + k] == b[k] { assert (a + b)[|a| + k] == b[k]; }
  }

  lemma HereAt(command: string, i: nat, s: string, k: nat)
    requires Here(command, i, s) && k < |s|
    ensures command[i + k] == s[k]
  {
  }

  /** Up to `i` the scanner has not come to an end, and it is neither in a quote nor behind a backslash. */
  predicate Open(command: string, start: nat, i: nat, d: nat) {
    start <= i <= |command| && StateAt(command, start, i) == FRESH && StillOpen(command, start, i, d)
  }

  predicate StillOpen(command: string, start: nat, i: nat, d: nat)
    requires start <= i <= |command|
  {
    Depth(command, start, i) == d && forall k :: start <= k <= i ==> Depth(command, start, k) > 0
  }

  lemma StepBare(command: string, start: nat, i: nat, d: nat)
    requires Open(command, start, i, d) && i < |command|
    requires command[i] !in "\\\"'`)" && !(command[i] == '$' && i + 1 < |command| && command[i + 1] == '(')
    ensures Open(command, start, i + 1, d)
  {
  }

  lemma {:induction false} WalkBare(command: string, start: nat, i: nat, text: string, k: nat, d: nat)
    requires Open(command, start, i, d) && Here(command, i, text) && ValidPiece(Bare(text)) && k <= |text|
    requires text != "" && text[|text| - 1] == '$' ==> i + |text| == |command| || command[i + |text|] != '('
    ensures Open(command, start, i + k, d)
    decreases k
  {
    if k > 0 {
      WalkBare(command, start, i, text, k - 1, d);
      assert command[i + (k - 1)] == text[k - 1];
      if k < |text| { assert command[i + k] == text[k]; }
      StepBare(command, start, i + k - 1, d);
    }
  }

  lemma StepBackslash(command: string, start: nat, i: nat, d: nat)
    requires Open(command, start, i, d) && i + 1 < |command| && command[i] == '\\'
    ensures Open(command, start, i + 2, d)
  {
    assert StateAt(command, start, i + 1) == Lexical(true, None, false);
    assert Depth(command, start, i + 1) == d;
  }

  /** Inside a quote. */
  predicate Inside(command: string, start: nat, i: nat, quote: char, d: nat) {
    start <= i <= |command| && StateAt(command, start, i) == Lexical(false, Some(quote), false) && StillOpen(command, start, i, d)
  }

  lemma StepQuote(command: string, start: nat, i: nat, d: nat)
    requires Open(command, start, i, d) && i < |command| && command[i] in "\"'`"
    ensures Inside(command, start, i + 1, command[i], d)
  {
  }

  lemma {:induction false} WalkQuoted(command: string, start: nat, i: nat, quote: char, inner: string, d: nat)
    requires Inside(command, start, i, quote, d) && Here(command, i, inner) && Paired(inner, quote)
    ensures Inside(command, start, i + |inner|, quote, d)
    decreases |inner|
  {
    if inner != "" {
      if inner[0] == '\\' {
        assert command[i + 0] == inner[0];
        assert StateAt(command, start, i + 1) == Lexical(true, Some(quote), false) && Depth(command, start, i + 1) == d;
        assert inner[..2] + inner[2..] == inner;
        HerePart(command, i, inner[..2], inner[2..]);
        WalkQuoted(command, start, i + 2, quote, inner[2..], d);
      } else {
        assert command[i + 0] == inner[0];
        assert inner[..1] + inner[1..] == inner;
        HerePart(command, i, inner[..1], inner[1..]);
        WalkQuoted(command, start, i + 1, quote, inner[1..], d);
      }
    }
  }

  lemma EndQuote(command: string, start: nat, i: nat, quote: char, d: nat)
    requires Inside(command, start, i, quote, d) && i < |command| && command[i] == quote && quote != '\\'
    ensures Open(command, start, i + 1, d)
  {
  }

  lemma StepOpens(command: string, start: nat, i: nat, d: nat)
    requires Open(command, start, i, d) && Here(command, i, "$(")
    ensures Open(command, start, i + 2, d + 1)
  {
    HereAt(command, i, "$(", 0);
    HereAt(command, i, "$(", 1);
    assert OpensAt(command, i);
    assert StateAt(command, start, i + 1) == Lexical(false, None, true) && Depth(command, start, i + 1) == d + 1;
  }

  lemma StepCloses(command: string, start: nat, i: nat, d: nat)
    requires Open(command, start, i, d + 1) && i < |command| && command[i] == ')' && d > 0
    ensures Open(command, start, i + 1, d)
  {
  }

  lemma CloseAt(command: string, start: nat, e: nat, d: nat)
    requires Open(command, start, e, d) && d == 1 && e < |command| && command[e] == ')'
    ensures IsEnd(command, start, e)
  {
  }

  /** What follows does not make an opening of a last dollar sign. */
  predicate Follows(body: seq<Piece>, command: string, j: nat) {
    body != [] && EndsInDollar(body[|body| - 1]) ==> j >= |command| || command[j] != '('
  }

  predicate EndsInDollar(piece: Piece) {
    piece.Bare? && piece.text != "" && piece.text[|piece.text| - 1] == '$'
  }

  lemma {:induction false} WalkBody(command: string, start: nat, i: nat, body: seq<Piece>, d: nat)
    requires ValidBody(body) && Here(command, i, WrittenBody(body)) && Open(command, start, i, d) && d > 0
    requires Follows(body, command, i + |WrittenBody(body)|)
    ensures Open(command, start, i + |WrittenBody(body)|, d)
    decreases body, 1
  {
    if body != [] {
      var w, rest := Written(body[0]), body[1..];
      HerePart(command, i, w, WrittenBody(rest));
      NextIsApart(command, i, body);
      WalkPiece(command, start, i, body[0], d);
      assert forall k :: 0 <= k < |rest| ==> rest[k] == body[k + 1];
      WalkBody(command, start, i + |w|, rest, d);
    }
  }

  lemma NextIsApart(command: string, i: nat, body: seq<Piece>)
    requires body != [] && ValidBody(body) && Here(command, i, WrittenBody(body)) && Follows(body, command, i + |WrittenBody(body)|)
    ensures EndsInDollar(body[0]) ==> i + |Written(body[0])| == |command| || command[i + |Written(body[0])|] != '('
    ensures ValidBody(body[1..]) && Follows(body[1..], command, i + |WrittenBody(body)|)
  {
    RestIsValid(body);
    if |body| > 1 {
      if EndsInDollar(body[0]) { SecondBegins(command, i, body); }
    } else {
      assert WrittenBody(body) == Written(body[0]) + "";
    }
  }

  lemma RestIsValid(body: seq<Piece>)
    requires body != [] && ValidBody(body)
    ensures ValidBody(body[1..]) && ValidPiece(body[0]) && (|body| > 1 ==> Apart(body[0], body[1]) && ValidPiece(body[1]))
  {
    var rest := body[1..];
    assert forall k :: 0 <= k < |rest| ==> rest[k] == body[k + 1];
  }

  lemma SecondBegins(command: string, i: nat, body: seq<Piece>)
    requires |body| > 1 && EndsInDollar(body[0]) && Apart(body[0], body[1]) && ValidPiece(body[1])
    requires Here(command, i, WrittenBody(body))
    ensures i + |Written(body[0])| < |command| && command[i + |Written(body[0])|] != '('
  {
    var w, rest := Written(body[0]), body[1..];
    PieceBegins(rest[0]);
    HerePart(command, i, w, WrittenBody(rest));
    assert WrittenBody(rest) == Written(rest[0]) + WrittenBody(rest[1..]);
    HereAt(command, i + |w|, WrittenBody(rest), 0);
  }

  lemma PieceBegins(piece: Piece)
    ensures !piece.Bare? ==> Written(piece) != "" && (ValidPiece(piece) ==> Written(piece)[0] != '(')
  {
  }

  lemma {:induction false} WalkPiece(command: string, start: nat, i: nat, piece: Piece, d: nat)
    requires ValidPiece(piece) && Here(command, i, Written(piece)) && Open(command, start, i, d) && d > 0
    requires EndsInDollar(piece) ==> i + |Written(piece)| == |command| || command[i + |Written(piece)|] != '('
    ensures Open(command, start, i + |Written(piece)|, d)
    decreases piece, 2
  {
    match piece
    case Bare(text) =>
      WalkBare(command, start, i, text, |text|, d);
    case Backslashed(c) =>
      HereAt(command, i, Written(piece), 0);
      StepBackslash(command, start, i, d);
    case Quoted(quote, inner) =>
      HerePart(command, i, [quote] + inner, [quote]);
      HerePart(command, i, [quote], inner);
      HereAt(command, i, [quote], 0);
      HereAt(command, i + 1 + |inner|, [quote], 0);
      StepQuote(command, start, i, d);
      WalkQuoted(command, start, i + 1, quote, inner, d);
      EndQuote(command, start, i + 1 + |inner|, quote, d);
    case Nested(body) =>
      var w := WrittenBody(body);
      HerePart(command, i, "$(" + w, ")");
      HerePart(command, i, "$(", w);
      HereAt(command, i + 2 + |w|, ")", 0);
      StepOpens(command, start, i, d);
      WalkBody(command, start, i + 2, body, d + 1);
      StepCloses(command, start, i + 2 + |w|, d);
  }

  lemma TailBegins(tail: Tail)
    requires ValidTail(tail)
    ensures WrittenTail(tail) != "" ==> WrittenTail(tail)[0] != '('
  {
  }

  lemma {:induction false} WalkTail(command: string, start: nat, i: nat, tail: Tail, d: nat)
    requires ValidTail(tail) && Here(command, i, WrittenTail(tail)) && i + |WrittenTail(tail)| == |command|
    requires Open(command, start, i, d) && d > 0
    ensures forall k :: start <= k <= |command| ==> Depth(command, start, k) > 0
    decreases tail
  {
    match tail
    case Nothing =>
    case LoneBackslash =>
      HereAt(command, i, "\\", 0);
      LoneBackslashOpen(command, start, i, d);
    case OpenQuote(quote, inner, backslash) =>
      var end := if backslash then "\\" else "";
      OpenQuoteParts(command, i, quote, inner, end);
      OpenQuoteWalks(command, start, i, quote, inner, d);
      if backslash {
        HereAt(command, i + 1 + |inner|, end, 0);
        LoneInQuote(command, start, i + 1 + |inner|, quote, d);
      }
    case OpenBody(body, more) =>
      var w := WrittenBody(body);
      HerePart(command, i, "$(" + w, WrittenTail(more));
      HerePart(command, i, "$(", w);
      TailBegins(more);
      assert WrittenTail(more) != "" ==> command[i + 2 + |w| + 0] == WrittenTail(more)[0];
      StepOpens(command, start, i, d);
      WalkBody(command, start, i + 2, body, d + 1);
      WalkTail(command, start, i + 2 + |w|, more, d + 1);
  }

  lemma LoneBackslashOpen(command: string, start: nat, i: nat, d: nat)
    requires Open(command, start, i, d) && d > 0 && i + 1 == |command| && command[i] == '\\'
    ensures forall k :: start <= k <= |command| ==> Depth(command, start, k) > 0
  {
    assert Depth(command, start, i + 1) == d;
  }

  lemma OpenQuoteWalks(command: string, start: nat, i: nat, quote: char, inner: string, d: nat)
    requires quote in "\"'`" && Paired(inner, quote)
    requires i < |command| && command[i] == quote && Here(command, i + 1, inner) && Open(command, start, i, d)
    ensures Inside(command, start, i + 1 + |inner|, quote, d)
  {
    StepQuote(command, start, i, d);
    WalkQuoted(command, start, i + 1, quote, inner, d);
  }

  lemma OpenQuoteParts(command: string, i: nat, quote: char, inner: string, end: string)
    requires Here(command, i, [quote] + inner + end)
    ensures i < |command| && command[i] == quote && Here(command, i + 1, inner) && Here(command, i + 1 + |inner|, end)
  {
    HerePart(command, i, [quote] + inner, end);
    HerePart(command, i, [quote], inner);
    HereAt(command, i, [quote], 0);
  }

  lemma LoneInQuote(command: string, start: nat, i: nat, quote: char, d: nat)
    requires Inside(command, start, i, quote, d) && d > 0 && i + 1 == |command| && command[i] == '\\'
    ensures forall k :: start <= k <= |command| ==> Depth(command, start, k) > 0
  {
    assert Depth(command, start, i + 1) == d;
  }

  // ---------------------------------------------------------------- every text is so written

  /** How far a quoted text goes: to its quote, or to the end, perhaps with a last backslash. */
  lemma {:induction false} PairedLength(s: string, quote: char) returns (n: nat)
    requires quote in "\"'`"
    ensures n <= |s| && Paired(s[..n], quote)
    ensures n < |s| ==> s[n] == quote || (s[n] == '\\' && n + 1 == |s|)
    decreases |s|, 1
  {
    if s == "" || s[0] == quote || s == "\\" {
      n := 0;
      assert Paired("", quote) && s[..0] == "";
    } else {
      var k := if s[0] == '\\' then 2 else 1;
      var m := PairedLength(s[k..], quote);
      n := k + m;
      assert s[..n][k..] == s[k..][..m] && s[..n][0] == s[0];
    }
  }

  /** A text is a body and what is behind its parenthesis, or a body that breaks off. */
  datatype Reading = Closed(body: seq<Piece>, rest: string) | Broken(body: seq<Piece>, tail: Tail)

  predicate Describes(r: Reading, s: string) {
    match r
    case Closed(body, rest) => ValidBody(body) && s == WrittenBody(body) + (")" + rest)
    case Broken(body, tail) => ValidBody(body) && ValidTail(tail) && s == WrittenBody(body) + WrittenTail(tail)
  }

  function InFront(piece: Piece, r: Reading): Reading {
    match r
    case Closed(body, rest) => Closed([piece] + body, rest)
    case Broken(body, tail) => Broken([piece] + body, tail)
  }

  /** The first piece of bare text is one character. */
  predicate BeginsWith(r: Reading, s: string) {
    r.body != [] && r.body[0].Bare? ==> s != "" && r.body[0].text == [s[0]]
  }

  lemma PieceInFront(piece: Piece, r: Reading, s: string)
    requires Describes(r, s) && ValidPiece(piece) && (r.body != [] ==> Apart(piece, r.body[0]))
    ensures Describes(InFront(piece, r), Written(piece) + s)
  {
    var body := [piece] + r.body;
    assert body[1..] == r.body;
    forall i | 0 <= i < |body| - 1 ensures Apart(body[i], body[i + 1]) {
      if i > 0 { assert body[i] == r.body[i - 1] && body[i + 1] == r.body[i]; }
    }
    var more := if r.Closed? then ")" + r.rest else WrittenTail(r.tail);
    Associates(Written(piece), WrittenBody(r.body), more);
  }

  /** So the law fixes where any substitution ends, or that it does not. */
  lemma {:induction false} EveryTextIsWritten(s: string) returns (r: Reading)
    ensures Describes(r, s) && BeginsWith(r, s)
    decreases |s|, 1
  {
    if s == "" {
      r := Broken([], Nothing);
    } else if s[0] == ')' {
      r := Closed([], s[1..]);
      assert s == "" + (")" + s[1..]);
    } else if s[0] == '\\' {
      r := ReadBackslash(s);
    } else if s[0] in "\"'`" {
      r := ReadQuote(s);
    } else if |s| >= 2 && s[0] == '$' && s[1] == '(' {
      r := ReadNested(s);
    } else {
      var more := EveryTextIsWritten(s[1..]);
      r := InFront(Bare([s[0]]), more);
      PieceInFront(Bare([s[0]]), more, s[1..]);
      assert [s[0]] + s[1..] == s;
    }
  }

  lemma {:induction false} ReadBackslash(s: string) returns (r: Reading)
    requires s != "" && s[0] == '\\'
    ensures Describes(r, s) && BeginsWith(r, s)
    decreases |s|, 0
  {
    if |s| == 1 {
      r := Broken([], LoneBackslash);
      assert s == "" + "\\";
    } else {
      var more := EveryTextIsWritten(s[2..]);
      r := InFront(Backslashed(s[1]), more);
      PieceInFront(Backslashed(s[1]), more, s[2..]);
      assert ['\\', s[1]] + s[2..] == s;
    }
  }

  lemma QuoteInFront(s: string, n: nat, more: Reading)
    requires |s| > n + 1 && s[0] in "\"'`" && Paired(s[1..][..n], s[0]) && s[n + 1] == s[0] && Describes(more, s[n + 2..])
    ensures var r := InFront(Quoted(s[0], s[1..][..n]), more); Describes(r, s) && BeginsWith(r, s)
  {
    var piece := Quoted(s[0], s[1..][..n]);
    PieceInFront(piece, more, s[n + 2..]);
    assert [s[0]] + s[1..][..n] + [s[0]] + s[n + 2..] == s;
  }

  lemma QuoteLeftOpen(s: string, n: nat)
    requires s != "" && n <= |s[1..]| && s[0] in "\"'`" && Paired(s[1..][..n], s[0])
    requires n < |s[1..]| ==> s[1..][n..] == "\\"
    ensures Describes(Broken([], OpenQuote(s[0], s[1..][..n], n < |s[1..]|)), s)
  {
    var end := if n < |s[1..]| then "\\" else "";
    assert s == [s[0]] + s[1..][..n] + end;
    assert s == "" + s;
  }

  lemma {:induction false} ReadQuote(s: string) returns (r: Reading)
    requires s != "" && s[0] in "\"'`"
    ensures Describes(r, s) && BeginsWith(r, s)
    decreases |s|, 0
  {
    var n := PairedLength(s[1..], s[0]);
    if n < |s[1..]| && s[1..][n] == s[0] {
      var more := EveryTextIsWritten(s[n + 2..]);
      r := InFront(Quoted(s[0], s[1..][..n]), more);
      QuoteInFront(s, n, more);
    } else {
      r := Broken([], OpenQuote(s[0], s[1..][..n], n < |s[1..]|));
      QuoteLeftOpen(s, n);
    }
  }

  lemma NestedInFront(s: string, body: seq<Piece>, rest: string, more: Reading)
    requires "$(" <= s && Describes(Closed(body, rest), s[2..]) && Describes(more, rest)
    ensures var r := InFront(Nested(body), more); Describes(r, s) && BeginsWith(r, s)
  {
    PieceInFront(Nested(body), more, rest);
    var w := WrittenBody(body);
    assert s == "$(" + (w + (")" + rest));
    assert "$(" + (w + (")" + rest)) == "$(" + w + ")" + rest;
  }

  lemma NestedLeftOpen(s: string, body: seq<Piece>, tail: Tail)
    requires "$(" <= s && Describes(Broken(body, tail), s[2..])
    ensures Describes(Broken([], OpenBody(body, tail)), s)
  {
    var w := WrittenBody(body);
    assert s == "$(" + (w + WrittenTail(tail));
    assert "$(" + (w + WrittenTail(tail)) == "$(" + w + WrittenTail(tail);
    assert s == "" + s;
  }

  lemma {:induction false} ReadNested(s: string) returns (r: Reading)
    requires |s| >= 2 && s[0] == '$' && s[1] == '('
    ensures Describes(r, s) && BeginsWith(r, s)
    decreases |s|, 0
  {
    var inner := EveryTextIsWritten(s[2..]);
    assert s[..2] == "$(";
    match inner
    case Closed(body, rest) =>
      var more := EveryTextIsWritten(rest);
      r := InFront(Nested(body), more);
      NestedInFront(s, body, rest, more);
    case Broken(body, tail) =>
      r := Broken([], OpenBody(body, tail));
      NestedLeftOpen(s, body, tail);
  }
}
