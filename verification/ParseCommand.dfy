/**
 * Decomposing a shell command (src/shared/parse-command.ts:25-64): quoted line
 * breaks are hidden, the lines are cut into chunks, heredoc blocks are kept
 * whole, every other line goes through the line parser, and the quoted breaks
 * are put back.
 */
module ParseCommand {
  import opened Text
  import opened QuoteProtection
  import opened Heredocs
  import opened Collisions

  /** Parses one line into commands, or throws. */
  type LineParser<!E> = string --> Result<seq<string>, E>

  /** The parser is only promised lines: no line breaks, and something to parse. */
  ghost predicate TakesLines<E>(parseLine: LineParser<E>) {
    forall line: string :: Breakless(line) && Trim(line) != "" ==> parseLine.requires(line)
  }

  ghost predicate TakesTexts<E>(parseLine: LineParser<E>, texts: seq<string>) {
    forall i :: 0 <= i < |texts| && Trim(texts[i]) != "" && !ContainsHeredocOperator(texts[i]) ==> parseLine.requires(texts[i])
  }

  // ---------------------------------------------------------------- specification

  function Prepended<E>(first: Result<seq<string>, E>, rest: Result<seq<string>, E>): Result<seq<string>, E> {
    match first
    case Err(_) => first
    case Ok(commands) => if rest.Err? then rest else Ok(commands + rest.value)
  }

  function OfText<E>(text: string, parseLine: LineParser<E>): Result<seq<string>, E>
    requires Trim(text) != "" && !ContainsHeredocOperator(text) ==> parseLine.requires(text)
  {
    if Trim(text) == "" then Ok([])
    else if ContainsHeredocOperator(text) then Ok([Trim(text)])
    else parseLine(text)
  }

  function OfTexts<E>(texts: seq<string>, parseLine: LineParser<E>): Result<seq<string>, E>
    requires TakesTexts(parseLine, texts)
  {
    if texts == [] then Ok([])
    else Prepended(OfText(texts[0], parseLine), OfTexts(texts[1..], parseLine))
  }

  function AllRestored(commands: seq<string>): (restored: seq<string>)
    ensures |restored| == |commands|
    ensures forall i :: 0 <= i < |commands| ==> restored[i] == Restored(commands[i])
  {
    seq(|commands|, i requires 0 <= i < |commands| => Restored(commands[i]))
  }

  function RestoredResult<E>(result: Result<seq<string>, E>): Result<seq<string>, E> {
    if result.Err? then result else Ok(AllRestored(result.value))
  }

  function Texts(command: string): seq<string> {
    Joined(Chunks(SplitLines(Protected(command))))
  }

  /** What the decomposer answers. */
  function Parsed<E>(command: string, parseLine: LineParser<E>): Result<seq<string>, E>
    requires TakesTexts(parseLine, Texts(command))
  {
    if Trim(command) == "" then Ok([]) else RestoredResult(OfTexts(Texts(command), parseLine))
  }

  // ---------------------------------------------------------------- the operation

  method ParseCommand<E>(command: string, parseLine: LineParser<E>) returns (result: Result<seq<string>, E>)
    requires TakesLines(parseLine)
    ensures TakesTexts(parseLine, Texts(command))
    ensures result == Parsed(command, parseLine)
  {
    OnlySingleLinesAreParsed(command, parseLine);
    if Trim(command) == "" {
      return Ok([]);
    }
    var protectedCommand := ProtectNewlinesInQuotes(command, NEWLINE_PLACEHOLDER, CARRIAGE_RETURN_PLACEHOLDER);
    var commandChunks := SplitCommandPreservingHeredocs(protectedCommand);
    ghost var all := OfTexts(commandChunks, parseLine);
    var allCommands: seq<string> := [];
    assert commandChunks[0..] == commandChunks;
    AfterNothing(all);
    for i := 0 to |commandChunks|
      invariant TakesTexts(parseLine, commandChunks[i..])
      invariant Prepended(Ok(allCommands), OfTexts(commandChunks[i..], parseLine)) == all
    {
      var commandChunk := commandChunks[i];
      DropDrop(commandChunks, i, 1);
      TakesRest(parseLine, commandChunks[i..]);
      AfterFirst(allCommands, commandChunks[i..], parseLine);
      if Trim(commandChunk) == "" {
        continue;
      }
      if ContainsHeredocOperator(commandChunk) {
        allCommands := allCommands + [Trim(commandChunk)];
        continue;
      }
      var lineCommands := parseLine(commandChunk);
      if lineCommands.Err? {
        return lineCommands;
      }
      allCommands := allCommands + lineCommands.value;
    }
    assert allCommands + [] == allCommands;
    return Ok(AllRestored(allCommands));
  }

  lemma AfterNothing<E>(rest: Result<seq<string>, E>)
    ensures Prepended(Ok([]), rest) == rest
  {
    if rest.Ok? {
      assert [] + rest.value == rest.value;
    }
  }

  lemma AfterFirst<E>(done: seq<string>, texts: seq<string>, parseLine: LineParser<E>)
    requires texts != [] && TakesTexts(parseLine, texts) && TakesTexts(parseLine, texts[1..])
    ensures match OfText(texts[0], parseLine)
            case Err(_) => Prepended(Ok(done), OfTexts(texts, parseLine)) == OfText(texts[0], parseLine)
            case Ok(commands) =>
              Prepended(Ok(done), OfTexts(texts, parseLine)) == Prepended(Ok(done + commands), OfTexts(texts[1..], parseLine))
              && (commands == [] ==> done + commands == done)
  {
    var first, rest := OfText(texts[0], parseLine), OfTexts(texts[1..], parseLine);
    if first.Ok? && rest.Ok? {
      Associates(done, first.value, rest.value);
      if first.value == [] {
        assert done + [] == done;
      }
    }
  }

  lemma TakesRest<E>(parseLine: LineParser<E>, texts: seq<string>)
    requires texts != [] && TakesTexts(parseLine, texts)
    ensures TakesTexts(parseLine, texts[1..])
  {
    assert forall i :: 0 <= i < |texts[1..]| ==> texts[1..][i] == texts[i + 1];
  }

  /** No heredoc body and no text of several lines ever reaches the line parser. */
  lemma OnlySingleLinesAreParsed<E>(command: string, parseLine: LineParser<E>)
    requires TakesLines(parseLine)
    ensures TakesTexts(parseLine, Texts(command))
  {
    var chunks := Chunks(SplitLines(Protected(command)));
    forall i | 0 <= i < |chunks| && !ContainsHeredocOperator(Joined(chunks)[i]) ensures Breakless(Joined(chunks)[i]) {
      assert chunks[i] in chunks;
      SplitterAndClassifierAgree(Protected(command), chunks[i]);
    }
  }

  // ---------------------------------------------------------------- in terms of the command itself

  predicate Blank(item: Item) {
    item.Raw? && IsSpace(item.ch)
  }

  function TrimItemsStart(items: seq<Item>): (rest: seq<Item>)
    ensures |rest| <= |items| && rest == items[|items| - |rest|..]
  {
    if items != [] && Blank(items[0]) then TrimItemsStart(items[1..]) else items
  }

  function TrimItemsEnd(items: seq<Item>): (front: seq<Item>)
    ensures |front| <= |items| && front == items[..|front|]
  {
    if items != [] && Blank(items[|items| - 1]) then TrimItemsEnd(items[..|items| - 1]) else items
  }

  /** The items joined by raw newlines, as the splitter joins lines. */
  function JoinRuns(runs: seq<seq<Item>>): seq<Item> {
    if runs == [] then [] else if |runs| == 1 then runs[0] else runs[0] + [Raw('\n')] + JoinRuns(runs[1..])
  }

  /** A block's items without the blanks around them. */
  function Core(block: seq<seq<Item>>): seq<Item> {
    TrimItemsEnd(TrimItemsStart(JoinRuns(block)))
  }

  /**
   * The command's own text for a block of its lines, quoted breaks included,
   * without the blanks around it.
   */
  function Own(block: seq<seq<Item>>): string {
    Render(Core(block), "\n", "\r")
  }

  function Shown(run: seq<Item>): string {
    Render(run, NEWLINE_PLACEHOLDER, CARRIAGE_RETURN_PLACEHOLDER)
  }

  function AllShown(runs: seq<seq<Item>>): seq<string> {
    RenderRuns(runs, NEWLINE_PLACEHOLDER, CARRIAGE_RETURN_PLACEHOLDER)
  }

  /** A list cut where the splitter cuts the lines beside it. */
  function CutLike<T>(list: seq<T>, lines: seq<string>): (cuts: seq<seq<T>>)
    requires |list| == |lines|
    ensures Concat(cuts) == list
    ensures forall i :: 0 <= i < |cuts| ==> cuts[i] != []
    decreases |list|
  {
    if list == [] then []
    else
      var n := 1 + BodyLength(Delimiters(lines[0]), lines[1..]);
      ConcatCons(list[..n], CutLike(list[n..], lines[n..]));
      [list[..n]] + CutLike(list[n..], lines[n..])
  }

  /** The command's lines in blocks: a heredoc with its body, or one line. */
  function Blocks(runs: seq<seq<Item>>): seq<seq<seq<Item>>> {
    CutLike(runs, AllShown(runs))
  }

  ghost predicate TakesBlock<E>(parseLine: LineParser<E>, block: seq<seq<Item>>) {
    block != [] && (Own(block) != "" && Delimiters(Shown(block[0])) == [] ==> parseLine.requires(Shown(block[0])))
  }

  ghost predicate TakesBlocks<E>(parseLine: LineParser<E>, blocks: seq<seq<seq<Item>>>) {
    forall i :: 0 <= i < |blocks| ==> TakesBlock(parseLine, blocks[i])
  }

  /** What becomes of a block: a heredoc comes out as it was written. */
  function OfBlock<E>(block: seq<seq<Item>>, parseLine: LineParser<E>): Result<seq<string>, E>
    requires TakesBlock(parseLine, block)
  {
    if Own(block) == "" then Ok([])
    else if Delimiters(Shown(block[0])) != [] then Ok([Own(block)])
    else RestoredResult(parseLine(Shown(block[0])))
  }

  function OfBlocks<E>(blocks: seq<seq<seq<Item>>>, parseLine: LineParser<E>): Result<seq<string>, E>
    requires TakesBlocks(parseLine, blocks)
  {
    if blocks == [] then Ok([])
    else Prepended(OfBlock(blocks[0], parseLine), OfBlocks(blocks[1..], parseLine))
  }

  /** The block is no heredoc, or nothing in it can be taken for a placeholder. */
  predicate Faithful(block: seq<seq<Item>>)
    requires block != []
  {
    Own(block) != "" && Delimiters(Shown(block[0])) != [] ==> !Collides(Core(block))
  }

  /**
   * The commands are those of the blocks in order (nothing for a blank line, the
   * command's own text for a heredoc with its body, and for any other line what
   * the line parser makes of that single line) exactly when no heredoc has text
   * that can be taken for a placeholder, or the line parser throws anyway.
   */
  lemma HeredocsComeOutVerbatim<E>(command: string, parseLine: LineParser<E>)
    requires TakesLines(parseLine)
    ensures TakesTexts(parseLine, Texts(command))
    ensures TakesBlocks(parseLine, Blocks(SplitItems(Items(command))))
    ensures var blocks := Blocks(SplitItems(Items(command)));
            Parsed(command, parseLine) == OfBlocks(blocks, parseLine)
            <==> OfTexts(Texts(command), parseLine).Err? || AllFaithful(blocks)
  {
    OnlySingleLinesAreParsed(command, parseLine);
    var blocks := Blocks(SplitItems(Items(command)));
    BlocksCorrespond(command);
    BlocksFollow(Texts(command), blocks, parseLine);
    if Trim(command) == "" {
      BlankCommand(command, parseLine);
      AllFaithfulIf(blocks);
    }
  }

  /** In particular they are whenever nothing in the whole command can be taken for a placeholder. */
  lemma HeredocsComeOutVerbatimWithoutCollisions<E>(command: string, parseLine: LineParser<E>)
    requires TakesLines(parseLine) && !Collides(Items(command))
    ensures TakesTexts(parseLine, Texts(command))
    ensures TakesBlocks(parseLine, Blocks(SplitItems(Items(command))))
    ensures Parsed(command, parseLine) == OfBlocks(Blocks(SplitItems(Items(command))), parseLine)
  {
    HeredocsComeOutVerbatim(command, parseLine);
    var runs := SplitItems(Items(command));
    forall i | 0 <= i < |Blocks(runs)| ensures !Collides(Core(Blocks(runs)[i])) {
      CutsComeFrom(runs, AllShown(runs), i);
      BlockDoesNotCollide(Blocks(runs)[i], Items(command));
    }
    AllFaithfulIf(Blocks(runs));
  }

  /** A chunk's text and the block it shows are treated alike. */
  ghost predicate Corresponds(text: string, block: seq<seq<Item>>) {
    && block != []
    && Trim(text) == Shown(Core(block))
    && (Trim(text) == "" <==> Own(block) == "")
    && (ContainsHeredocOperator(text) <==> Delimiters(Shown(block[0])) != [])
    && (!ContainsHeredocOperator(text) ==> text == Shown(block[0]))
  }

  lemma BlocksCorrespond(command: string)
    ensures var texts, blocks := Texts(command), Blocks(SplitItems(Items(command)));
            |texts| == |blocks| && forall i :: 0 <= i < |texts| ==> Corresponds(texts[i], blocks[i])
  {
    var runs := SplitItems(Items(command));
    var blocks := Blocks(runs);
    var texts := Texts(command);
    ProtectKeepsUnquotedBreaks(command);
    ChunksAreCuts(runs, AllShown(runs), NEWLINE_PLACEHOLDER, CARRIAGE_RETURN_PLACEHOLDER);
    forall i | 0 <= i < |blocks| ensures Corresponds(texts[i], blocks[i]) {
      var chunk := AllShown(blocks[i]);
      assert chunk == Chunks(SplitLines(Protected(command)))[i];
      SplitterAndClassifierAgree(Protected(command), chunk);
      BlockTrims(blocks[i]);
      assert chunk[0] == Shown(blocks[i][0]);
    }
  }

  /** Both throw alike, or both give as many commands, and the same ones exactly when `faithful`. */
  ghost predicate Follows<E>(a: Result<seq<string>, E>, b: Result<seq<string>, E>, faithful: bool) {
    if a.Err? then a == b else b.Ok? && |a.value| == |b.value| && (a == b <==> faithful)
  }

  predicate AllFaithful(blocks: seq<seq<seq<Item>>>)
    requires forall i :: 0 <= i < |blocks| ==> blocks[i] != []
  {
    blocks == [] || (Faithful(blocks[0]) && AllFaithful(blocks[1..]))
  }

  lemma {:induction false} BlocksFollow<E>(texts: seq<string>, blocks: seq<seq<seq<Item>>>, parseLine: LineParser<E>)
    requires |texts| == |blocks| && forall i :: 0 <= i < |texts| ==> Corresponds(texts[i], blocks[i])
    requires TakesTexts(parseLine, texts)
    ensures TakesBlocks(parseLine, blocks)
    ensures Follows(RestoredResult(OfTexts(texts, parseLine)), OfBlocks(blocks, parseLine), AllFaithful(blocks))
  {
    if texts != [] {
      TakesRest(parseLine, texts);
      BlocksFollow(texts[1..], blocks[1..], parseLine);
      assert Corresponds(texts[0], blocks[0]);
      FirstBlockFollows(texts[0], blocks[0], parseLine);
      FirstBlock(blocks, parseLine);
      var first, rest := OfText(texts[0], parseLine), OfTexts(texts[1..], parseLine);
      RestoredPrepended(first, rest);
      PrependedFollow(RestoredResult(first), OfBlock(blocks[0], parseLine), Faithful(blocks[0]),
                      RestoredResult(rest), OfBlocks(blocks[1..], parseLine), AllFaithful(blocks[1..]));
    }
  }

  lemma FirstBlock<E>(blocks: seq<seq<seq<Item>>>, parseLine: LineParser<E>)
    requires blocks != []
    requires TakesBlock(parseLine, blocks[0]) && TakesBlocks(parseLine, blocks[1..])
    ensures TakesBlocks(parseLine, blocks)
  {
    forall i | 0 <= i < |blocks| ensures TakesBlock(parseLine, blocks[i]) {
      if i > 0 {
        assert blocks[i] == blocks[1..][i - 1];
      }
    }
  }

  lemma {:induction false} AllFaithfulIf(blocks: seq<seq<seq<Item>>>)
    requires forall i :: 0 <= i < |blocks| ==> blocks[i] != [] && Faithful(blocks[i])
    ensures AllFaithful(blocks)
  {
    if blocks != [] {
      AllFaithfulIf(blocks[1..]);
    }
  }

  lemma FirstBlockFollows<E>(text: string, block: seq<seq<Item>>, parseLine: LineParser<E>)
    requires Corresponds(text, block)
    requires Trim(text) != "" && !ContainsHeredocOperator(text) ==> parseLine.requires(text)
    ensures TakesBlock(parseLine, block)
    ensures Follows(RestoredResult(OfText(text, parseLine)), OfBlock(block, parseLine), Faithful(block))
  {
    if Trim(text) == "" {
      assert AllRestored([]) == [];
    } else if ContainsHeredocOperator(text) {
      RoundTrip(Core(block));
      RestoredOne<E>(Trim(text), Own(block));
    }
  }

  lemma RestoredOne<E>(text: string, own: string)
    ensures RestoredResult<E>(Ok([text])).Ok? && |RestoredResult<E>(Ok([text])).value| == 1
    ensures RestoredResult<E>(Ok([text])) == Ok([own]) <==> Restored(text) == own
  {
    assert AllRestored([text]) == [Restored(text)];
    assert [Restored(text)][0] == Restored(text) && [own][0] == own;
  }

  lemma PrependedFollow<E>(a: Result<seq<string>, E>, b: Result<seq<string>, E>, f: bool,
                           aRest: Result<seq<string>, E>, bRest: Result<seq<string>, E>, g: bool)
    requires Follows(a, b, f) && Follows(aRest, bRest, g)
    ensures Follows(Prepended(a, aRest), Prepended(b, bRest), f && g)
  {
    if a.Ok? && aRest.Ok? && Prepended(a, aRest) == Prepended(b, bRest) {
      var n := |a.value|;
      assert (a.value + aRest.value)[..n] == a.value && (b.value + bRest.value)[..n] == b.value;
      assert (a.value + aRest.value)[n..] == aRest.value && (b.value + bRest.value)[n..] == bRest.value;
    }
  }

  lemma RestoredPrepended<E>(a: Result<seq<string>, E>, b: Result<seq<string>, E>)
    ensures RestoredResult(Prepended(a, b)) == Prepended(RestoredResult(a), RestoredResult(b))
  {
    if a.Ok? && b.Ok? {
      assert AllRestored(a.value + b.value) == AllRestored(a.value) + AllRestored(b.value);
    }
  }

  // ---------------------------------------------------------------- chunks and blocks

  /** The chunks are the blocks, shown. */
  lemma {:induction false} ChunksAreCuts(runs: seq<seq<Item>>, lines: seq<string>, nl: string, cr: string)
    requires lines == RenderRuns(runs, nl, cr)
    ensures |Chunks(lines)| == |CutLike(runs, lines)|
    ensures forall i :: 0 <= i < |Chunks(lines)| ==> Chunks(lines)[i] == RenderRuns(CutLike(runs, lines)[i], nl, cr)
    decreases |runs|
  {
    if runs != [] {
      var n := 1 + BodyLength(Delimiters(lines[0]), lines[1..]);
      assert lines[..n] == RenderRuns(runs[..n], nl, cr);
      FirstChunk(lines, Delimiters(lines[0]), n - 1);
      assert CutLike(runs, lines) == [runs[..n]] + CutLike(runs[n..], lines[n..]);
      ChunksAreCuts(runs[n..], lines[n..], nl, cr);
    }
  }

  lemma {:induction false} CutsComeFrom<T>(list: seq<T>, lines: seq<string>, i: nat)
    requires |list| == |lines| && i < |CutLike(list, lines)|
    ensures forall x :: x in CutLike(list, lines)[i] ==> x in list
    decreases |list|
  {
    var n := 1 + BodyLength(Delimiters(lines[0]), lines[1..]);
    if i > 0 {
      CutsComeFrom(list[n..], lines[n..], i - 1);
    }
  }

  lemma BlockTrims(block: seq<seq<Item>>)
    ensures Trim(Join(AllShown(block), "\n")) == Shown(Core(block))
    ensures Shown(Core(block)) == "" <==> Own(block) == ""
  {
    RenderJoins(block, NEWLINE_PLACEHOLDER, CARRIAGE_RETURN_PLACEHOLDER);
    RenderTrims(JoinRuns(block), NEWLINE_PLACEHOLDER, CARRIAGE_RETURN_PLACEHOLDER);
    RenderIsEmpty(Core(block), NEWLINE_PLACEHOLDER, CARRIAGE_RETURN_PLACEHOLDER);
    RenderIsEmpty(Core(block), "\n", "\r");
  }

  lemma BlockDoesNotCollide(block: seq<seq<Item>>, items: seq<Item>)
    requires !Collides(items)
    requires forall run :: run in block ==> run in SplitItems(items)
    ensures !Collides(Core(block))
  {
    forall run | run in block ensures !Collides(run) {
      RunsDoNotCollide(items, run);
    }
    var joined := JoinRuns(block);
    var rest := TrimItemsStart(joined);
    JoinedRunsDoNotCollide(block);
    SliceDoesNotCollide(joined, |joined| - |rest|, |Core(block)|);
  }

  lemma {:induction false} RenderJoins(runs: seq<seq<Item>>, nl: string, cr: string)
    ensures Join(RenderRuns(runs, nl, cr), "\n") == Render(JoinRuns(runs), nl, cr)
  {
    if |runs| > 1 {
      RenderJoins(runs[1..], nl, cr);
      assert RenderRuns(runs, nl, cr)[1..] == RenderRuns(runs[1..], nl, cr);
      RenderAppend(runs[0] + [Raw('\n')], JoinRuns(runs[1..]), nl, cr);
      RenderAppend(runs[0], [Raw('\n')], nl, cr);
      assert Render([Raw('\n')], nl, cr) == "\n" + Render([], nl, cr);
    }
  }

  // ---------------------------------------------------------------- trimming

  /** Neither empty nor with a blank at either end. */
  predicate Solid(word: string) {
    word != "" && Trimmed(word)
  }

  lemma RenderTrims(items: seq<Item>, nl: string, cr: string)
    requires Solid(nl) && Solid(cr)
    ensures Trim(Render(items, nl, cr)) == Render(TrimItemsEnd(TrimItemsStart(items)), nl, cr)
  {
    RenderTrimsStart(items, nl, cr);
    RenderTrimsEnd(TrimItemsStart(items), nl, cr);
  }

  lemma {:induction false} RenderTrimsStart(items: seq<Item>, nl: string, cr: string)
    requires Solid(nl) && Solid(cr)
    ensures TrimStart(Render(items, nl, cr)) == Render(TrimItemsStart(items), nl, cr)
  {
    if items != [] {
      var s, g := Render(items, nl, cr), Glyph(items[0], nl, cr);
      assert s[0] == g[0];
      if Blank(items[0]) {
        assert s[1..] == Render(items[1..], nl, cr);
        RenderTrimsStart(items[1..], nl, cr);
      }
    }
  }

  lemma {:induction false} RenderTrimsEnd(items: seq<Item>, nl: string, cr: string)
    requires Solid(nl) && Solid(cr)
    ensures TrimEnd(Render(items, nl, cr)) == Render(TrimItemsEnd(items), nl, cr)
  {
    if items != [] {
      var n := |items| - 1;
      RenderNext(items, n, nl, cr);
      assert items[..n + 1] == items;
      EndOf(Render(items[..n], nl, cr), Glyph(items[n], nl, cr));
      if Blank(items[n]) {
        RenderTrimsEnd(items[..n], nl, cr);
      }
    }
  }

  lemma EndOf(front: string, g: string)
    requires g != ""
    ensures var s := front + g; s != "" && s[|s| - 1] == g[|g| - 1] && (|g| == 1 ==> s[..|s| - 1] == front)
  {
  }

  lemma {:induction false} RenderIsEmpty(items: seq<Item>, nl: string, cr: string)
    requires nl != "" && cr != ""
    ensures Render(items, nl, cr) == "" <==> items == []
  {
  }

  lemma {:induction false} JoinedRunsDoNotCollide(runs: seq<seq<Item>>)
    requires forall run :: run in runs ==> !Collides(run)
    ensures !Collides(JoinRuns(runs))
  {
    if runs != [] {
      assert runs[0] in runs;
      JoinedRunsDoNotCollide(runs[1..]);
      if |runs| > 1 && Collides(JoinRuns(runs)) {
        CollisionsEndAtBreak(runs[0], JoinRuns(runs[1..]));
      }
    }
  }

  // ---------------------------------------------------------------- blank commands

  ghost predicate AllBlank(items: seq<Item>) {
    forall i :: 0 <= i < |items| ==> Blank(items[i])
  }

  /** The early return for a blank command agrees with the general rule. */
  lemma BlankCommand<E>(command: string, parseLine: LineParser<E>)
    requires Trim(command) == ""
    requires TakesBlocks(parseLine, Blocks(SplitItems(Items(command))))
    ensures OfBlocks(Blocks(SplitItems(Items(command))), parseLine) == Ok([])
    ensures forall i :: 0 <= i < |Blocks(SplitItems(Items(command)))| ==> Own(Blocks(SplitItems(Items(command)))[i]) == ""
  {
    var runs := SplitItems(Items(command));
    BlankIsSpaces(command);
    forall i | 0 <= i < |command| ensures command[i] != '"' && command[i] != '\'' {
      SpaceIsNoQuote(command[i]);
    }
    forall i | 0 <= i < |command| ensures Blank(Items(command)[i]) {
      NoQuotesNoState(command, i);
    }
    forall run, i | run in runs && 0 <= i < |run| ensures Blank(run[i]) {
      RunItems(Items(command), run);
      assert run[i] in run;
    }
    forall i | 0 <= i < |Blocks(runs)| ensures Own(Blocks(runs)[i]) == "" {
      CutsComeFrom(runs, AllShown(runs), i);
      BlankJoined(Blocks(runs)[i]);
      BlankTrims(JoinRuns(Blocks(runs)[i]));
    }
    BlankBlocks(Blocks(runs), parseLine);
  }

  lemma {:induction false} BlankBlocks<E>(blocks: seq<seq<seq<Item>>>, parseLine: LineParser<E>)
    requires TakesBlocks(parseLine, blocks)
    requires forall i :: 0 <= i < |blocks| ==> Own(blocks[i]) == ""
    ensures OfBlocks(blocks, parseLine) == Ok([])
  {
    if blocks != [] {
      BlankBlocks(blocks[1..], parseLine);
      assert TakesBlock(parseLine, blocks[0]) && OfBlock(blocks[0], parseLine) == Ok([]);
      AfterNothing<E>(Ok([]));
    }
  }

  lemma {:induction false} BlankIsSpaces(s: string)
    requires Trim(s) == ""
    ensures forall i :: 0 <= i < |s| ==> IsSpace(s[i])
  {
    if s != "" {
      if !IsSpace(s[0]) {
        KeepsFirst(s);
      } else {
        BlankIsSpaces(s[1..]);
        assert forall i :: 0 < i < |s| ==> s[i] == s[1..][i - 1];
      }
    }
  }

  lemma {:induction false} KeepsFirst(s: string)
    requires s != "" && !IsSpace(s[0])
    ensures TrimEnd(s) != ""
  {
    if IsSpace(s[|s| - 1]) {
      KeepsFirst(s[..|s| - 1]);
    }
  }

  lemma {:induction false} NoQuotesNoState(command: string, i: nat)
    requires i <= |command| && forall k :: 0 <= k < |command| ==> command[k] != '"' && command[k] != '\''
    ensures QuoteAt(command, i) == Outside
  {
    if i > 0 {
      NoQuotesNoState(command, i - 1);
    }
  }

  lemma SpaceIsNoQuote(c: char)
    requires IsSpace(c)
    ensures c != '"' && c != '\''
  {
  }

  lemma BlankJoined(runs: seq<seq<Item>>)
    requires forall run :: run in runs ==> AllBlank(run)
    ensures AllBlank(JoinRuns(runs))
  {
    if runs != [] {
      assert runs[0] in runs;
      BlankJoined(runs[1..]);
    }
  }

  lemma {:induction false} BlankTrims(items: seq<Item>)
    requires AllBlank(items)
    ensures TrimItemsStart(items) == []
  {
    if items != [] {
      BlankTrims(items[1..]);
    }
  }
}
