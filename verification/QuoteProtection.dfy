/**
 * Protection of line breaks inside quotes (src/shared/quote-protection.ts).
 *
 * The scanner is specified by the quote state it is in before each character.
 * A command seen through that state is a sequence of items: raw characters and
 * quoted line breaks. Protecting renders the breaks as placeholder words.
 */
module QuoteProtection {
  import opened Text

  const NEWLINE_PLACEHOLDER: string := "___NEWLINE___"
  const CARRIAGE_RETURN_PLACEHOLDER: string := "___CARRIAGE_RETURN___"

  // ---------------------------------------------------------------- specification

  datatype Quote = Outside | Double | Single

  /** The quote state after reading `ch`, where `prev` is the character before it. */
  function After(q: Quote, prev: char, ch: char): Quote {
    match q
    case Outside => if ch == '"' then Double else if ch == '\'' then Single else Outside
    case Double => if ch == '"' && prev != '\\' then Outside else Double
    case Single => if ch == '\'' then Outside else Single
  }

  /** The quote state before character `i`. */
  function QuoteAt(command: string, i: nat): Quote
    requires i <= |command|
  {
    if i == 0 then Outside
    else After(QuoteAt(command, i - 1), if i >= 2 then command[i - 2] else ' ', command[i - 1])
  }

  datatype Item = Raw(ch: char) | QuotedNewline | QuotedReturn

  function ItemAt(command: string, i: nat): Item
    requires i < |command|
  {
    if QuoteAt(command, i) == Outside then Raw(command[i])
    else if command[i] == '\n' then QuotedNewline
    else if command[i] == '\r' then QuotedReturn
    else Raw(command[i])
  }

  function Items(command: string): (items: seq<Item>)
    ensures |items| == |command|
    ensures forall i :: 0 <= i < |command| ==> items[i] == ItemAt(command, i)
  {
    seq(|command|, i requires 0 <= i < |command| => ItemAt(command, i))
  }

  function Glyph(item: Item, nl: string, cr: string): string {
    match item
    case Raw(ch) => [ch]
    case QuotedNewline => nl
    case QuotedReturn => cr
  }

  /** The items written out, quoted line breaks as `nl` and `cr`. */
  function Render(items: seq<Item>, nl: string, cr: string): string {
    if items == [] then "" else Glyph(items[0], nl, cr) + Render(items[1..], nl, cr)
  }

  function Protected(command: string): string {
    Render(Items(command), NEWLINE_PLACEHOLDER, CARRIAGE_RETURN_PLACEHOLDER)
  }

  function Restored(text: string): string {
    ReplaceAll(ReplaceAll(text, NEWLINE_PLACEHOLDER, "\n"), CARRIAGE_RETURN_PLACEHOLDER, "\r")
  }

  // ---------------------------------------------------------------- the scanner

  /** The nested loops of the source, proved against the item view. */
  method ProtectNewlinesInQuotes(command: string, newlinePlaceholder: string, carriageReturnPlaceholder: string)
    returns (result: string)
    ensures result == Render(Items(command), newlinePlaceholder, carriageReturnPlaceholder)
  {
    result := "";
    ghost var items := Items(command);
    var i := 0;
    while i < |command|
      invariant 0 <= i <= |command|
      invariant QuoteAt(command, i) == Outside
        || (i == |command| && QuoteAt(command, i) != Outside)
      invariant result == Render(items[..i], newlinePlaceholder, carriageReturnPlaceholder)
    {
      var ch := command[i];
      RenderStep(command, i, newlinePlaceholder, carriageReturnPlaceholder);
      result := result + [ch];
      i := i + 1;
      if ch == '"' {
        while i < |command|
          invariant 0 < i <= |command|
          invariant QuoteAt(command, i) == Double
          invariant result == Render(items[..i], newlinePlaceholder, carriageReturnPlaceholder)
        {
          RenderStep(command, i, newlinePlaceholder, carriageReturnPlaceholder);
          var quoteChar := command[i];
          var prevChar := command[i - 1];
          if quoteChar == '"' && prevChar != '\\' {
            result := result + [quoteChar];
            i := i + 1;
            break;
          } else if quoteChar == '\n' {
            result := result + newlinePlaceholder;
          } else if quoteChar == '\r' {
            result := result + carriageReturnPlaceholder;
          } else {
            result := result + [quoteChar];
          }
          i := i + 1;
        }
      } else if ch == '\'' {
        while i < |command|
          invariant 0 < i <= |command|
          invariant QuoteAt(command, i) == Single
          invariant result == Render(items[..i], newlinePlaceholder, carriageReturnPlaceholder)
        {
          RenderStep(command, i, newlinePlaceholder, carriageReturnPlaceholder);
          var quoteChar := command[i];
          if quoteChar == '\'' {
            result := result + [quoteChar];
            i := i + 1;
            break;
          } else if quoteChar == '\n' {
            result := result + newlinePlaceholder;
          } else if quoteChar == '\r' {
            result := result + carriageReturnPlaceholder;
          } else {
            result := result + [quoteChar];
          }
          i := i + 1;
        }
      }
    }
    assert items[..i] == items;
  }

  /** One more character read: its item is rendered, and the quote state moves on. */
  lemma RenderStep(command: string, i: nat, nl: string, cr: string)
    requires i < |command|
    ensures Render(Items(command)[..i + 1], nl, cr) == Render(Items(command)[..i], nl, cr) + Glyph(ItemAt(command, i), nl, cr)
    ensures QuoteAt(command, i + 1) == After(QuoteAt(command, i), if i >= 1 then command[i - 1] else ' ', command[i])
  {
    RenderNext(Items(command), i, nl, cr);
  }

  lemma RenderNext(items: seq<Item>, i: nat, nl: string, cr: string)
    requires i < |items|
    ensures Render(items[..i + 1], nl, cr) == Render(items[..i], nl, cr) + Glyph(items[i], nl, cr)
  {
    assert items[..i + 1] == items[..i] + [items[i]];
    RenderAppend(items[..i], [items[i]], nl, cr);
    assert Render([items[i]], nl, cr) == Glyph(items[i], nl, cr) + Render([], nl, cr);
  }

  lemma {:induction false} RenderAppend(a: seq<Item>, b: seq<Item>, nl: string, cr: string)
    ensures Render(a + b, nl, cr) == Render(a, nl, cr) + Render(b, nl, cr)
  {
    if a == [] {
      assert a + b == b;
    } else {
      RenderAppend(a[1..], b, nl, cr);
      assert (a + b)[1..] == a[1..] + b;
      Associates(Glyph(a[0], nl, cr), Render(a[1..], nl, cr), Render(b, nl, cr));
    }
  }

  /** Rendering quoted breaks as themselves gives the command back. */
  lemma RenderIsCommand(command: string)
    ensures Render(Items(command), "\n", "\r") == command
  {
    RenderPlain(Items(command), command);
  }

  lemma {:induction false} RenderPlain(items: seq<Item>, s: string)
    requires |items| == |s|
    requires forall i :: 0 <= i < |s| ==> Glyph(items[i], "\n", "\r") == [s[i]]
    ensures Render(items, "\n", "\r") == s
  {
    if s != "" {
      RenderPlain(items[1..], s[1..]);
      assert [s[0]] + s[1..] == s;
    }
  }

  // ---------------------------------------------------------------- when restoring undoes protecting

  /** The items begin with `text`, all raw. */
  predicate RawText(items: seq<Item>, text: string) {
    |text| <= |items| && forall i :: 0 <= i < |text| ==> items[i] == Raw(text[i])
  }

  /**
   * At least `n` underscores come next once quoted breaks are placeholders. `newlines` says
   * whether quoted newlines are placeholders too, or have been restored already.
   */
  predicate Underscores(items: seq<Item>, n: nat, newlines: bool) {
    n == 0 ||
    (items != [] &&
     match items[0]
     case Raw(ch) => ch == '_' && Underscores(items[1..], n - 1, newlines)
     case QuotedNewline => newlines && n <= 3
     case QuotedReturn => n <= 3)
  }

  /** The word NEWLINE, followed by three underscores, after `n` raw underscores. */
  predicate NewlineWord(items: seq<Item>, n: nat) {
    RawText(items, Repeat('_', n) + "NEWLINE") && Underscores(items[n + 7..], 3, true)
  }

  /**
   * Text that the first restoring pass takes for a newline begins here: three underscores
   * and the word, or a quoted carriage return whose own last underscores complete the three.
   */
  predicate FakesNewline(items: seq<Item>) {
    items != [] &&
    match items[0]
    case Raw(_) => NewlineWord(items, 3)
    case QuotedReturn => NewlineWord(items[1..], 0) || NewlineWord(items[1..], 1) || NewlineWord(items[1..], 2)
    case QuotedNewline => false
  }

  /** Text that the second pass takes for a carriage return begins here. */
  predicate FakesReturn(items: seq<Item>) {
    RawText(items, "___CARRIAGE_RETURN") && Underscores(items[18..], 3, false)
  }

  predicate Collides(items: seq<Item>) {
    items != [] && (FakesNewline(items) || FakesReturn(items) || Collides(items[1..]))
  }

  /**
   * Restoring undoes protecting exactly on the commands that contain no text
   * which, next to the inserted placeholders, reads as a placeholder.
   */
  lemma RestoreUndoesProtect(command: string)
    ensures Restored(Protected(command)) == command <==> !Collides(Items(command))
  {
    RoundTrip(Items(command));
    RenderIsCommand(command);
  }

  /** In particular it does so whenever neither word occurs in the command. */
  lemma RestoreUndoesProtectWithoutWords(command: string)
    requires !Contains(command, "NEWLINE") && !Contains(command, "CARRIAGE_RETURN")
    ensures Restored(Protected(command)) == command
  {
    NoWordsNoCollision(command, 0);
    assert Items(command)[0..] == Items(command);
    RestoreUndoesProtect(command);
  }

  /** The whole placeholder need not occur for the law to fail: an overlap with an inserted one is enough. */
  lemma OverlapBreaksRoundTrip()
    ensures var command := "'___NEWLINE\n'";
      !Contains(command, NEWLINE_PLACEHOLDER) && Restored(Protected(command)) != command
  {
    var command := "'___NEWLINE\n'";
    var items := Items(command);
    assert QuoteAt(command, 0) == Outside && QuoteAt(command, 1) == Single && QuoteAt(command, 2) == Single;
    assert QuoteAt(command, 3) == Single && QuoteAt(command, 4) == Single && QuoteAt(command, 5) == Single;
    assert QuoteAt(command, 6) == Single && QuoteAt(command, 7) == Single && QuoteAt(command, 8) == Single;
    assert QuoteAt(command, 9) == Single && QuoteAt(command, 10) == Single && QuoteAt(command, 11) == Single;
    assert RawText(items[1..], Repeat('_', 3) + "NEWLINE");
    assert items[1..][10..][0] == QuotedNewline;
    assert FakesNewline(items[1..]);
    assert Collides(items);
    RestoreUndoesProtect(command);
  }

  lemma {:induction false} NoWordsNoCollision(command: string, k: nat)
    requires k <= |command|
    requires !Contains(command, "NEWLINE") && !Contains(command, "CARRIAGE_RETURN")
    ensures !Collides(Items(command)[k..])
    decreases |command| - k
  {
    var items := Items(command)[k..];
    if k < |command| {
      NoWordsNoCollision(command, k + 1);
      assert items[1..] == Items(command)[k + 1..];
      NoFakeHere(command, k);
    }
  }

  lemma NoFakeHere(command: string, k: nat)
    requires k < |command|
    requires !Contains(command, "NEWLINE") && !Contains(command, "CARRIAGE_RETURN")
    ensures !FakesNewline(Items(command)[k..]) && !FakesReturn(Items(command)[k..])
  {
    var items := Items(command)[k..];
    assert items[1..] == Items(command)[k + 1..];
    NoNewlineWord(command, k, 3);
    NoNewlineWord(command, k + 1, 0);
    NoNewlineWord(command, k + 1, 1);
    NoNewlineWord(command, k + 1, 2);
    NoReturnWord(command, k);
  }

  lemma NoReturnWord(command: string, k: nat)
    requires k <= |command| && !Contains(command, "CARRIAGE_RETURN")
    ensures !RawText(Items(command)[k..], "___CARRIAGE_RETURN")
  {
    if RawText(Items(command)[k..], "___CARRIAGE_RETURN") {
      assert "___CARRIAGE_RETURN" == "___" + "CARRIAGE_RETURN";
      RawTextInCommand(command, k, "___", "CARRIAGE_RETURN");
    }
  }

  lemma NoNewlineWord(command: string, k: nat, n: nat)
    requires k <= |command| && !Contains(command, "NEWLINE")
    ensures !NewlineWord(Items(command)[k..], n)
  {
    if RawText(Items(command)[k..], Repeat('_', n) + "NEWLINE") {
      RawTextInCommand(command, k, Repeat('_', n), "NEWLINE");
    }
  }

  lemma RawTextInCommand(command: string, k: nat, lead: string, word: string)
    requires k <= |command|
    requires RawText(Items(command)[k..], lead + word)
    ensures Contains(command, word)
  {
    var j := k + |lead|;
    forall i | 0 <= i < |word| ensures command[j + i] == word[i] {
      assert Items(command)[k..][|lead| + i] == Raw((lead + word)[|lead| + i]);
    }
    assert word <= command[j..];
  }

  // ---- how placeholder text can line up with rendered items

  /** Either one ordinary character, or three underscores and then something else. */
  predicate PlaceholderShaped(p: string) {
    (|p| == 1 && p[0] != '_' && IsBreak(p[0])) || (|p| > 3 && p[..3] == "___" && p[3] != '_')
  }

  lemma StepRaw(w: string, items: seq<Item>, nl: string, cr: string)
    requires w != "" && items != [] && items[0].Raw?
    ensures w <= Render(items, nl, cr) <==> w[0] == items[0].ch && w[1..] <= Render(items[1..], nl, cr)
  {
    var r := Render(items, nl, cr);
    assert r == [items[0].ch] + Render(items[1..], nl, cr);
    assert r[1..] == Render(items[1..], nl, cr);
    if w[0] == items[0].ch && w[1..] <= Render(items[1..], nl, cr) {
      assert w == [w[0]] + w[1..];
    }
  }

  /** Letters never come out of a placeholder's front, so they must be raw. */
  lemma {:induction false} LettersAreRaw(t: string, w: string, items: seq<Item>, nl: string, cr: string)
    requires PlaceholderShaped(nl) && PlaceholderShaped(cr)
    requires forall i :: 0 <= i < |t| ==> t[i] != '_' && !IsBreak(t[i])
    ensures t + w <= Render(items, nl, cr) <==> RawText(items, t) && w <= Render(items[|t|..], nl, cr)
  {
    if t == "" {
      assert t + w == w && items[0..] == items;
    } else if items == [] {
    } else if items[0].Raw? {
      StepRaw(t + w, items, nl, cr);
      assert (t + w)[1..] == t[1..] + w;
      LettersAreRaw(t[1..], w, items[1..], nl, cr);
      if RawText(items[1..], t[1..]) && items[0] == Raw(t[0]) {
        forall i | 0 <= i < |t| ensures items[i] == Raw(t[i]) {
          if i > 0 { assert items[1..][i - 1] == Raw(t[1..][i - 1]); }
        }
      }
      if RawText(items, t) {
        forall i | 0 <= i < |t[1..]| ensures items[1..][i] == Raw(t[1..][i]) {
          assert items[i + 1] == Raw(t[i + 1]);
        }
        assert items[1..][|t| - 1..] == items[|t|..];
      }
    } else {
      assert Render(items, nl, cr)[0] == Glyph(items[0], nl, cr)[0];
      assert (t + w)[0] == t[0];
      assert items[0] != Raw(t[0]);
    }
  }

  /** Fewer than three underscores before a letter must be raw as well. */
  lemma {:induction false} FewUnderscoresAreRaw(n: nat, w: string, items: seq<Item>, nl: string, cr: string)
    requires PlaceholderShaped(nl) && PlaceholderShaped(cr)
    requires n <= 2 && w != "" && w[0] != '_' && !IsBreak(w[0])
    ensures Repeat('_', n) + w <= Render(items, nl, cr) <==> RawText(items, Repeat('_', n)) && w <= Render(items[n..], nl, cr)
  {
    var u := Repeat('_', n);
    if n == 0 {
      assert u + w == w && items[0..] == items;
    } else if items == [] {
    } else if items[0].Raw? {
      StepRaw(u + w, items, nl, cr);
      assert u[1..] == Repeat('_', n - 1);
      assert (u + w)[1..] == u[1..] + w;
      FewUnderscoresAreRaw(n - 1, w, items[1..], nl, cr);
      RawUnderscores(n, items);
      if n <= |items| { assert items[1..][n - 1..] == items[n..]; }
    } else {
      InsertedIsNotFew(n, w, items, nl, cr);
    }
  }

  lemma RawUnderscores(n: nat, items: seq<Item>)
    requires n > 0 && items != []
    ensures RawText(items, Repeat('_', n)) <==> items[0] == Raw('_') && RawText(items[1..], Repeat('_', n - 1))
  {
    if items[0] == Raw('_') && RawText(items[1..], Repeat('_', n - 1)) {
      forall i | 0 <= i < n ensures items[i] == Raw('_') {
        if i > 0 { assert items[1..][i - 1] == Raw('_'); }
      }
    }
    if RawText(items, Repeat('_', n)) {
      forall i | 0 <= i < n - 1 ensures items[1..][i] == Raw('_') { assert items[i + 1] == Raw('_'); }
    }
  }

  /** An inserted placeholder has three underscores in front, or none. */
  lemma InsertedIsNotFew(n: nat, w: string, items: seq<Item>, nl: string, cr: string)
    requires PlaceholderShaped(nl) && PlaceholderShaped(cr)
    requires 0 < n <= 2 && w != "" && w[0] != '_' && !IsBreak(w[0]) && items != [] && !items[0].Raw?
    ensures !(Repeat('_', n) + w <= Render(items, nl, cr)) && !RawText(items, Repeat('_', n))
  {
    var u, g, r := Repeat('_', n), Glyph(items[0], nl, cr), Render(items, nl, cr);
    assert u[0] == '_' && items[0] != Raw('_');
    assert (u + w)[0] == '_' && (u + w)[n] == w[0];
    if |g| > 3 {
      assert r[n] == g[n] == g[..3][n] == '_';
    } else {
      assert r[0] == g[0];
    }
  }

  /** The trailing underscores may be raw or the front of an inserted placeholder. */
  lemma {:induction false} TrailingUnderscores(n: nat, items: seq<Item>, newlines: bool, nl: string, cr: string)
    requires PlaceholderShaped(nl) && PlaceholderShaped(cr) && |cr| > 3 && (newlines <==> |nl| > 3)
    requires n <= 3
    ensures Repeat('_', n) <= Render(items, nl, cr) <==> Underscores(items, n, newlines)
  {
    var u := Repeat('_', n);
    if n == 0 {
    } else if items == [] {
    } else if items[0].Raw? {
      StepRaw(u, items, nl, cr);
      assert u[1..] == Repeat('_', n - 1);
      TrailingUnderscores(n - 1, items[1..], newlines, nl, cr);
    } else {
      var g := Glyph(items[0], nl, cr);
      var r := Render(items, nl, cr);
      assert r[..|g|] == g && u[0] == '_';
      if |g| > 3 {
        assert forall i :: 0 <= i < n ==> r[i] == g[..3][i] == '_';
        assert u <= r;
      } else {
        assert r[0] == g[0];
      }
    }
  }

  /** `n` underscores, a word and three underscores lie at the front of the rendering. */
  lemma PlaceholderTail(n: nat, word: string, items: seq<Item>, newlines: bool, nl: string, cr: string)
    requires PlaceholderShaped(nl) && PlaceholderShaped(cr) && |cr| > 3 && (newlines <==> |nl| > 3)
    requires n <= 2 && word != "" && forall i :: 0 <= i < |word| ==> word[i] != '_' && !IsBreak(word[i])
    ensures Repeat('_', n) + word + "___" <= Render(items, nl, cr)
       <==> RawText(items, Repeat('_', n) + word) && Underscores(items[n + |word|..], 3, newlines)
  {
    var u := Repeat('_', n);
    assert u + word + "___" == u + (word + "___");
    assert (word + "___")[0] == word[0];
    FewUnderscoresAreRaw(n, word + "___", items, nl, cr);
    if n <= |items| {
      LettersAreRaw(word, "___", items[n..], nl, cr);
      RawTextSplit(items, u, word);
      if n + |word| <= |items| {
        assert items[n..][|word|..] == items[n + |word|..];
        assert Repeat('_', 3) == "___";
        TrailingUnderscores(3, items[n + |word|..], newlines, nl, cr);
      }
    }
  }

  lemma RawTextSplit(items: seq<Item>, a: string, b: string)
    ensures RawText(items, a + b) <==> RawText(items, a) && RawText(items[|a|..], b)
  {
    if RawText(items, a + b) {
      forall i | 0 <= i < |a| ensures items[i] == Raw(a[i]) {
        assert items[i] == Raw((a + b)[i]);
      }
      forall i | 0 <= i < |b| ensures items[|a|..][i] == Raw(b[i]) {
        assert items[|a| + i] == Raw((a + b)[|a| + i]);
      }
    }
    if RawText(items, a) && RawText(items[|a|..], b) {
      forall i | 0 <= i < |a + b| ensures items[i] == Raw((a + b)[i]) {
        if i >= |a| { assert items[|a|..][i - |a|] == Raw(b[i - |a|]); }
      }
    }
  }

  /** A raw character begins a false newline placeholder exactly as `FakesNewline` says. */
  lemma RawFakesNewline(items: seq<Item>)
    requires items != [] && items[0].Raw?
    ensures NEWLINE_PLACEHOLDER <= Render(items, NEWLINE_PLACEHOLDER, CARRIAGE_RETURN_PLACEHOLDER) <==> FakesNewline(items)
  {
    StepRaw(NEWLINE_PLACEHOLDER, items, NEWLINE_PLACEHOLDER, CARRIAGE_RETURN_PLACEHOLDER);
    PlaceholderTail(2, "NEWLINE", items[1..], true, NEWLINE_PLACEHOLDER, CARRIAGE_RETURN_PLACEHOLDER);
    NewlineBegins();
    PrependRaw(items, '_', Repeat('_', 2) + "NEWLINE");
    if |items| >= 10 {
      assert items[1..][9..] == items[10..];
    }
  }

  lemma NewlineBegins()
    ensures NEWLINE_PLACEHOLDER[0] == '_'
    ensures NEWLINE_PLACEHOLDER[1..] == Repeat('_', 2) + "NEWLINE" + "___"
    ensures ['_'] + (Repeat('_', 2) + "NEWLINE") == Repeat('_', 3) + "NEWLINE"
  {
  }

  lemma PrependRaw(items: seq<Item>, c: char, t: string)
    requires items != []
    ensures RawText(items, [c] + t) <==> items[0] == Raw(c) && RawText(items[1..], t)
  {
    RawTextSplit(items, [c], t);
    assert RawText(items, [c]) <==> items[0] == Raw(c);
  }

  lemma ReturnEnds()
    ensures CARRIAGE_RETURN_PLACEHOLDER[3..] == "CARRIAGE" + (Repeat('_', 1) + "RETURN" + "___")
    ensures "CARRIAGE_RETURN" == "CARRIAGE" + (Repeat('_', 1) + "RETURN")
  {
  }

  lemma ReturnWord(items: seq<Item>)
    ensures CARRIAGE_RETURN_PLACEHOLDER[3..] <= Render(items, "\n", CARRIAGE_RETURN_PLACEHOLDER)
       <==> RawText(items, "CARRIAGE_RETURN") && Underscores(items[15..], 3, false)
  {
    var nl, cr := "\n", CARRIAGE_RETURN_PLACEHOLDER;
    var tail := Repeat('_', 1) + "RETURN";
    ReturnEnds();
    LettersAreRaw("CARRIAGE", tail + "___", items, nl, cr);
    RawTextSplit(items, "CARRIAGE", tail);
    if |items| >= 8 {
      PlaceholderTail(1, "RETURN", items[8..], false, nl, cr);
      if |items| >= 15 { assert items[8..][7..] == items[15..]; }
    }
  }

  /** The same for the second pass, where quoted newlines have been restored. */
  lemma RawFakesReturn(items: seq<Item>)
    requires items != [] && items[0].Raw?
    ensures CARRIAGE_RETURN_PLACEHOLDER <= Render(items, "\n", CARRIAGE_RETURN_PLACEHOLDER) <==> FakesReturn(items)
  {
    var nl, cr := "\n", CARRIAGE_RETURN_PLACEHOLDER;
    var rest, lead := items[1..], Repeat('_', 2);
    StepRaw(cr, items, nl, cr);
    ReturnBegins();
    FewUnderscoresAreRaw(2, cr[3..], rest, nl, cr);
    PrependRaw(items, '_', lead + "CARRIAGE_RETURN");
    RawTextSplit(rest, lead, "CARRIAGE_RETURN");
    if |rest| >= 2 {
      ReturnWord(rest[2..]);
      if |rest| >= 17 { assert rest[2..][15..] == items[18..]; }
    }
  }

  lemma ReturnBegins()
    ensures CARRIAGE_RETURN_PLACEHOLDER[0] == '_'
    ensures CARRIAGE_RETURN_PLACEHOLDER[1..] == Repeat('_', 2) + CARRIAGE_RETURN_PLACEHOLDER[3..]
    ensures CARRIAGE_RETURN_PLACEHOLDER[3] == 'C'
    ensures "___CARRIAGE_RETURN" == ['_'] + (Repeat('_', 2) + "CARRIAGE_RETURN")
  {
    assert Repeat('_', 2) == "__";
    assert "___CARRIAGE_RETURN" == ['_'] + ("__" + "CARRIAGE_RETURN");
  }

  /** Inside an inserted carriage-return placeholder a match can begin at its last underscores only. */
  lemma ReturnFakesNewline(items: seq<Item>, i: nat)
    requires items != [] && items[0] == QuotedReturn
    requires i < 21
    ensures NEWLINE_PLACEHOLDER <= CARRIAGE_RETURN_PLACEHOLDER[i..] + Render(items[1..], NEWLINE_PLACEHOLDER, CARRIAGE_RETURN_PLACEHOLDER)
       <==> i >= 18 && NewlineWord(items[1..], i - 18)
  {
    if i < 18 {
      NoMatchInReturn(Render(items[1..], NEWLINE_PLACEHOLDER, CARRIAGE_RETURN_PLACEHOLDER), i);
    } else {
      MatchAtEndOfReturn(items[1..], i - 18);
    }
  }

  lemma NoMatchInReturn(r: string, i: nat)
    requires i < 18
    ensures !(NEWLINE_PLACEHOLDER <= CARRIAGE_RETURN_PLACEHOLDER[i..] + r)
  {
    var nl, cr := NEWLINE_PLACEHOLDER, CARRIAGE_RETURN_PLACEHOLDER;
    var k := if i < 3 then 3 - i else if i == 11 then 1 else 0;
    assert cr[i + k] != nl[k];
    assert (cr[i..] + r)[k] == cr[i + k];
  }

  lemma MatchAtEndOfReturn(items: seq<Item>, d: nat)
    requires d <= 2
    ensures NEWLINE_PLACEHOLDER <= CARRIAGE_RETURN_PLACEHOLDER[18 + d..] + Render(items, NEWLINE_PLACEHOLDER, CARRIAGE_RETURN_PLACEHOLDER)
       <==> NewlineWord(items, d)
  {
    var nl, cr := NEWLINE_PLACEHOLDER, CARRIAGE_RETURN_PLACEHOLDER;
    PlaceholderTail(d, "NEWLINE", items, true, nl, cr);
    var left, w := Repeat('_', 3 - d), Repeat('_', d) + "NEWLINE" + "___";
    ReturnEndsInUnderscores(d);
    PrefixPeels(left, w, Render(items, nl, cr));
  }

  lemma ReturnEndsInUnderscores(d: nat)
    requires d <= 2
    ensures CARRIAGE_RETURN_PLACEHOLDER[18 + d..] == Repeat('_', 3 - d)
    ensures NEWLINE_PLACEHOLDER == Repeat('_', 3 - d) + (Repeat('_', d) + "NEWLINE" + "___")
  {
    assert CARRIAGE_RETURN_PLACEHOLDER[18..] == Repeat('_', 3);
    assert Repeat('_', 3 - d) + Repeat('_', d) == "___";
    assert Repeat('_', 3 - d) + (Repeat('_', d) + "NEWLINE" + "___") == (Repeat('_', 3 - d) + Repeat('_', d)) + "NEWLINE" + "___";
  }

  lemma PrefixPeels(left: string, w: string, r: string)
    ensures left + w <= left + r <==> w <= r
  {
    assert (left + w)[|left|..] == w && (left + r)[|left|..] == r;
  }

  /** A false match in an inserted carriage return leaves text that no later pass can repair. */
  lemma BrokenReturn(items: seq<Item>, d: nat)
    requires items != [] && items[0] == QuotedReturn
    requires d <= 2 && NewlineWord(items[1..], d) && forall e :: 0 <= e < d ==> !NewlineWord(items[1..], e)
    ensures Restored(Render(items, NEWLINE_PLACEHOLDER, CARRIAGE_RETURN_PLACEHOLDER)) != Render(items, "\n", "\r")
  {
    var nl, cr := NEWLINE_PLACEHOLDER, CARRIAGE_RETURN_PLACEHOLDER;
    var r := Render(items[1..], nl, cr);
    BrokenAt(items, d);
    ReturnCut(18 + d);
    FirstStays(cr[..18 + d], cr[18 + d..] + r, nl, cr);
    Associates(cr[..18 + d], cr[18 + d..], r);
    assert Render(items, "\n", "\r")[0] == '\r';
  }

  lemma ReturnCut(n: nat)
    requires 18 <= n <= 20
    ensures var cr := CARRIAGE_RETURN_PLACEHOLDER;
      cr[..n] + cr[n..] == cr && cr[..n] < cr && cr[..n][0] == '_' && cr[n] == '_'
  {
  }

  /** The first match of the first pass begins at the `d`th of the trailing underscores. */
  lemma BrokenAt(items: seq<Item>, d: nat)
    requires items != [] && items[0] == QuotedReturn
    requires d <= 2 && NewlineWord(items[1..], d) && forall e :: 0 <= e < d ==> !NewlineWord(items[1..], e)
    ensures var u := CARRIAGE_RETURN_PLACEHOLDER[..18 + d];
      var v := CARRIAGE_RETURN_PLACEHOLDER[18 + d..] + Render(items[1..], NEWLINE_PLACEHOLDER, CARRIAGE_RETURN_PLACEHOLDER);
      NEWLINE_PLACEHOLDER <= v && forall i :: 0 <= i < |u| ==> !(NEWLINE_PLACEHOLDER <= u[i..] + v)
  {
    var r := Render(items[1..], NEWLINE_PLACEHOLDER, CARRIAGE_RETURN_PLACEHOLDER);
    ReturnFakesNewline(items, 18 + d);
    forall i | 0 <= i < 18 + d ensures !(NEWLINE_PLACEHOLDER <= CARRIAGE_RETURN_PLACEHOLDER[i..] + r) {
      ReturnFakesNewline(items, i);
    }
    NoMatchBefore(NEWLINE_PLACEHOLDER, CARRIAGE_RETURN_PLACEHOLDER, r, 18 + d);
  }

  lemma NoMatchBefore(nl: string, cr: string, r: string, n: nat)
    requires n <= |cr| && forall i :: 0 <= i < n ==> !(nl <= cr[i..] + r)
    ensures forall i :: 0 <= i < n ==> !(nl <= cr[..n][i..] + (cr[n..] + r))
  {
    forall i | 0 <= i < n ensures cr[..n][i..] + (cr[n..] + r) == cr[i..] + r {
      assert cr[..n][i..] + cr[n..] == cr[i..];
    }
  }

  /** A text that matches `nl` only after `u`, a beginning of `cr`, keeps its first character in both passes. */
  lemma FirstStays(u: string, v: string, nl: string, cr: string)
    requires nl != "" && cr != "" && u != "" && u < cr && cr[|u|] != '\n'
    requires nl <= v && forall i :: 0 <= i < |u| ==> !(nl <= u[i..] + v)
    ensures var s := ReplaceAll(ReplaceAll(u + v, nl, "\n"), cr, "\r"); s != "" && s[0] == u[0]
  {
    ReplaceSkips(u, v, nl, "\n");
    var first := ReplaceAll(u + v, nl, "\n");
    assert first[|u|] == '\n' && first[0] == u[0];
    ReplaceKeepsHead(first, cr, "\r", |u|);
  }

  lemma ReplaceKeepsHead(s: string, pat: string, rep: string, i: nat)
    requires i < |s| && i < |pat| && s[i] != pat[i]
    ensures ReplaceAll(s, pat, rep) != "" && ReplaceAll(s, pat, rep)[0] == s[0]
  {
  }

  /** Without false matches the first pass restores exactly the quoted newlines. */
  lemma {:induction false} FirstPass(items: seq<Item>)
    requires !Collides(items)
    ensures ReplaceAll(Render(items, NEWLINE_PLACEHOLDER, CARRIAGE_RETURN_PLACEHOLDER), NEWLINE_PLACEHOLDER, "\n")
         == Render(items, "\n", CARRIAGE_RETURN_PLACEHOLDER)
  {
    if items != [] {
      FirstPass(items[1..]);
      FirstPassStep(items);
    }
  }

  lemma FirstPassStep(items: seq<Item>)
    requires items != [] && !FakesNewline(items)
    ensures var nl, cr := NEWLINE_PLACEHOLDER, CARRIAGE_RETURN_PLACEHOLDER;
      ReplaceAll(Render(items, nl, cr), nl, "\n") == Glyph(items[0], "\n", cr) + ReplaceAll(Render(items[1..], nl, cr), nl, "\n")
  {
    var nl, cr := NEWLINE_PLACEHOLDER, CARRIAGE_RETURN_PLACEHOLDER;
    var r := Render(items[1..], nl, cr);
    match items[0]
    case Raw(ch) =>
      RawFakesNewline(items);
      assert ([ch] + r)[1..] == r;
    case QuotedNewline =>
      ReplaceHit(r, nl, "\n");
    case QuotedReturn =>
      forall i | 0 <= i < |cr| ensures !(nl <= cr[i..] + r) {
        ReturnFakesNewline(items, i);
      }
      ReplaceSkips(cr, r, nl, "\n");
  }

  lemma {:induction false} RoundTrip(items: seq<Item>)
    ensures Restored(Render(items, NEWLINE_PLACEHOLDER, CARRIAGE_RETURN_PLACEHOLDER)) == Render(items, "\n", "\r") <==> !Collides(items)
  {
    if items != [] {
      var nl, cr := NEWLINE_PLACEHOLDER, CARRIAGE_RETURN_PLACEHOLDER;
      RoundTrip(items[1..]);
      if FakesNewline(items) {
        if items[0].Raw? {
          RawFakesNewline(items);
          FakeShows(items);
        } else if NewlineWord(items[1..], 0) {
          BrokenReturn(items, 0);
        } else if NewlineWord(items[1..], 1) {
          BrokenReturn(items, 1);
        } else {
          BrokenReturn(items, 2);
        }
      } else {
        FirstPassStep(items);
        SecondPassStep(items);
      }
    }
  }

  /** A raw underscore replaced by a newline differs from the command at once. */
  lemma FakeShows(items: seq<Item>)
    requires items != [] && items[0].Raw? && NEWLINE_PLACEHOLDER <= Render(items, NEWLINE_PLACEHOLDER, CARRIAGE_RETURN_PLACEHOLDER)
    ensures Restored(Render(items, NEWLINE_PLACEHOLDER, CARRIAGE_RETURN_PLACEHOLDER)) != Render(items, "\n", "\r")
  {
    var r := Render(items, NEWLINE_PLACEHOLDER, CARRIAGE_RETURN_PLACEHOLDER);
    assert r[0] == items[0].ch == '_';
    var first := ReplaceAll(r, NEWLINE_PLACEHOLDER, "\n");
    assert first[0] == '\n';
    assert Restored(r)[0] == '\n';
    assert Render(items, "\n", "\r")[0] == '_';
  }

  lemma SecondPassStep(items: seq<Item>)
    requires items != [] && !FakesNewline(items)
    requires var nl, cr := NEWLINE_PLACEHOLDER, CARRIAGE_RETURN_PLACEHOLDER;
      ReplaceAll(Render(items, nl, cr), nl, "\n") == Glyph(items[0], "\n", cr) + ReplaceAll(Render(items[1..], nl, cr), nl, "\n")
    requires Restored(Render(items[1..], NEWLINE_PLACEHOLDER, CARRIAGE_RETURN_PLACEHOLDER)) == Render(items[1..], "\n", "\r") <==> !Collides(items[1..])
    ensures Restored(Render(items, NEWLINE_PLACEHOLDER, CARRIAGE_RETURN_PLACEHOLDER)) == Render(items, "\n", "\r") <==> !Collides(items)
  {
    var nl, cr := NEWLINE_PLACEHOLDER, CARRIAGE_RETURN_PLACEHOLDER;
    var y := ReplaceAll(Render(items[1..], nl, cr), nl, "\n");
    var want := Render(items[1..], "\n", "\r");
    match items[0]
    case Raw(ch) =>
      assert ([ch] + y)[1..] == y;
      assert Render(items, "\n", "\r") == [ch] + want;
      if cr <= [ch] + y {
        assert ch == cr[0] == '_';
        assert Restored(Render(items, nl, cr))[0] == '\r';
        if !Collides(items[1..]) {
          FirstPass(items[1..]);
          RawFakesReturn(items);
        }
      } else {
        assert Restored(Render(items, nl, cr)) == [ch] + ReplaceAll(y, cr, "\r");
        assert ([ch] + ReplaceAll(y, cr, "\r"))[1..] == ReplaceAll(y, cr, "\r") && ([ch] + want)[1..] == want;
        if !Collides(items[1..]) {
          FirstPass(items[1..]);
          RawFakesReturn(items);
        }
      }
    case QuotedNewline =>
      assert ("\n" + y)[1..] == y;
      assert Restored(Render(items, nl, cr)) == "\n" + ReplaceAll(y, cr, "\r");
      assert ("\n" + ReplaceAll(y, cr, "\r"))[1..] == ReplaceAll(y, cr, "\r") && ("\n" + want)[1..] == want;
      assert Render(items, "\n", "\r") == "\n" + want;
      assert !RawText(items, "___CARRIAGE_RETURN") by { assert items[0] != Raw('_'); }
    case QuotedReturn =>
      ReplaceHit(y, cr, "\r");
      assert ("\r" + ReplaceAll(y, cr, "\r"))[1..] == ReplaceAll(y, cr, "\r") && ("\r" + want)[1..] == want;
      assert Render(items, "\n", "\r") == "\r" + want;
      assert !RawText(items, "___CARRIAGE_RETURN") by { assert items[0] != Raw('_'); }
  }

  // ---------------------------------------------------------------- which line breaks are left

  /** The items cut at their raw line breaks, "\r\n" counting once. */
  function SplitItems(items: seq<Item>): (runs: seq<seq<Item>>)
    ensures |runs| >= 1
    ensures forall run: seq<Item>, i :: run in runs && 0 <= i < |run| ==> !(run[i].Raw? && IsBreak(run[i].ch))
  {
    if items == [] then [[]]
    else if |items| > 1 && items[0] == Raw('\r') && items[1] == Raw('\n') then [[]] + SplitItems(items[2..])
    else if items[0].Raw? && IsBreak(items[0].ch) then [[]] + SplitItems(items[1..])
    else
      var rest := SplitItems(items[1..]);
      assert rest[0] in rest;
      [[items[0]] + rest[0]] + rest[1..]
  }

  function RenderRuns(runs: seq<seq<Item>>, nl: string, cr: string): (lines: seq<string>)
    ensures |lines| == |runs|
    ensures forall i :: 0 <= i < |runs| ==> lines[i] == Render(runs[i], nl, cr)
  {
    seq(|runs|, i requires 0 <= i < |runs| => Render(runs[i], nl, cr))
  }

  /**
   * The lines of a protected command are the command's own lines, cut at the
   * breaks outside quotes and nowhere else.
   */
  lemma ProtectKeepsUnquotedBreaks(command: string)
    ensures SplitLines(Protected(command))
         == RenderRuns(SplitItems(Items(command)), NEWLINE_PLACEHOLDER, CARRIAGE_RETURN_PLACEHOLDER)
  {
    SplitRendered(Items(command), NEWLINE_PLACEHOLDER, CARRIAGE_RETURN_PLACEHOLDER);
  }

  lemma {:induction false} SplitRendered(items: seq<Item>, nl: string, cr: string)
    requires nl != "" && cr != "" && Breakless(nl) && Breakless(cr)
    ensures SplitLines(Render(items, nl, cr)) == RenderRuns(SplitItems(items), nl, cr)
    decreases |items|
  {
    if items == [] {
      assert RenderRuns([[]], nl, cr) == [""];
    } else if |items| > 1 && items[0] == Raw('\r') && items[1] == Raw('\n') {
      SplitRendered(items[2..], nl, cr);
      SplitRenderedPair(items, nl, cr);
      EmptyRun(SplitItems(items[2..]), nl, cr);
    } else if items[0].Raw? && IsBreak(items[0].ch) {
      SplitRendered(items[1..], nl, cr);
      SplitRenderedBreak(items, nl, cr);
      EmptyRun(SplitItems(items[1..]), nl, cr);
    } else {
      SplitRendered(items[1..], nl, cr);
      SplitRenderedItem(items, nl, cr);
    }
  }

  lemma EmptyRun(runs: seq<seq<Item>>, nl: string, cr: string)
    ensures RenderRuns([[]] + runs, nl, cr) == [""] + RenderRuns(runs, nl, cr)
  {
  }

  lemma SplitRenderedItem(items: seq<Item>, nl: string, cr: string)
    requires nl != "" && cr != "" && Breakless(nl) && Breakless(cr)
    requires items != [] && !(items[0].Raw? && IsBreak(items[0].ch))
    requires SplitLines(Render(items[1..], nl, cr)) == RenderRuns(SplitItems(items[1..]), nl, cr)
    ensures SplitLines(Render(items, nl, cr)) == RenderRuns(SplitItems(items), nl, cr)
  {
    var g, r := Glyph(items[0], nl, cr), Render(items[1..], nl, cr);
    assert Render(items, nl, cr) == g + r;
    PrependBreakless(g, r);
    RunPrepends(items[0], SplitItems(items[1..]), nl, cr);
  }

  lemma RunPrepends(item: Item, runs: seq<seq<Item>>, nl: string, cr: string)
    requires runs != []
    ensures RenderRuns([[item] + runs[0]] + runs[1..], nl, cr)
         == [Glyph(item, nl, cr) + RenderRuns(runs, nl, cr)[0]] + RenderRuns(runs, nl, cr)[1..]
  {
    var first := [item] + runs[0];
    assert first[1..] == runs[0];
    assert Render(first, nl, cr) == Glyph(item, nl, cr) + Render(runs[0], nl, cr);
  }

  lemma SplitRenderedPair(items: seq<Item>, nl: string, cr: string)
    requires |items| > 1 && items[0] == Raw('\r') && items[1] == Raw('\n')
    ensures SplitLines(Render(items, nl, cr)) == [""] + SplitLines(Render(items[2..], nl, cr))
  {
    assert items[1..][1..] == items[2..];
    var s, r := Render(items, nl, cr), Render(items[2..], nl, cr);
    assert Render(items[1..], nl, cr) == ['\n'] + r;
    assert s == ['\r'] + (['\n'] + r) == "\r\n" + r;
    assert s[2..] == r;
  }

  lemma SplitRenderedBreak(items: seq<Item>, nl: string, cr: string)
    requires nl != "" && cr != "" && Breakless(nl) && Breakless(cr)
    requires items != [] && items[0].Raw? && IsBreak(items[0].ch)
    requires |items| > 1 && items[0] == Raw('\r') ==> items[1] != Raw('\n')
    ensures SplitLines(Render(items, nl, cr)) == [""] + SplitLines(Render(items[1..], nl, cr))
  {
    var s, r := Render(items, nl, cr), Render(items[1..], nl, cr);
    assert s == [items[0].ch] + r && s[1..] == r;
    if |items| > 1 {
      var g := Glyph(items[1], nl, cr);
      assert r[0] == g[0] == s[1];
      assert g[0] in g;
    }
  }

  lemma {:induction false} PrependBreakless(g: string, s: string)
    requires Breakless(g)
    ensures SplitLines(g + s) == [g + SplitLines(s)[0]] + SplitLines(s)[1..]
  {
    var lines := SplitLines(s);
    if g == "" {
      assert g + s == s && g + lines[0] == lines[0];
      assert [lines[0]] + lines[1..] == lines;
    } else {
      assert g[0] in g;
      assert forall c :: c in g[1..] ==> c in g;
      PrependBreakless(g[1..], s);
      assert (g + s)[1..] == g[1..] + s;
      assert [g[0]] + g[1..] == g;
      Associates([g[0]], g[1..], lines[0]);
    }
  }
}
