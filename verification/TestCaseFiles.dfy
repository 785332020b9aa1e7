/**
 * The parser of autocomplete test-case files
 * (src/test-llm-autocompletion/test-cases.ts, lines 34-135).
 */
module TestCaseFiles {
  import opened Text
  import opened Characters

  datatype ContextFile = ContextFile(filepath: string, content: string)

  datatype TestCase = TestCase(description: string, filename: string, input: string, contextFiles: seq<ContextFile>)

  /** The headers that are missing. */
  type ParseError = seq<string>

  // ---------------------------------------------------------------- header lines

  datatype Header = Header(name: string, value: string)

  const MARK: string := "#### "

  /** Characters that a dot in the header pattern does not match. */
  predicate IsLineTerminator(c: char) {
    c == '\n' || c == '\r' || c == '\U{2028}' || c == '\U{2029}'
  }

  predicate NoTerminator(s: string) {
    forall i :: 0 <= i < |s| ==> !IsLineTerminator(s[i])
  }

  /** The pattern `#### name: value`, the name not empty and without a colon. */
  function HeaderOf(line: string): Option<Header> {
    if MARK <= line then HeaderAfterMark(line[|MARK|..]) else None
  }

  function HeaderAfterMark(rest: string): Option<Header> {
    var colon := Find(rest, ':');
    if colon == 0 || colon == |rest| then None
    else
      var value := TrimStart(rest[colon + 1..]);
      if NoTerminator(value) then Some(Header(rest[..colon], Trim(value))) else None
  }

  /** A line as the parser sees it. */
  datatype Line = HeaderLine(name: string, value: string) | ContentLine(text: string)

  function Classify(line: string): Line {
    match HeaderOf(line)
    case Some(header) => HeaderLine(ToLowerCase(header.name), header.value)
    case None => ContentLine(line)
  }

  function Classified(lines: seq<string>): (ls: seq<Line>)
    ensures |ls| == |lines|
  {
    if lines == [] then [] else Classified(lines[..|lines| - 1]) + [Classify(lines[|lines| - 1])]
  }

  lemma {:induction false} ClassifiedAt(lines: seq<string>, i: nat)
    requires i < |lines|
    ensures Classified(lines)[i] == Classify(lines[i])
  {
    if i < |lines| - 1 { ClassifiedAt(lines[..|lines| - 1], i); }
  }

  // ---------------------------------------------------------------- specification over the lines still to read

  /** The length of the run of header lines at the front. */
  function HeaderCount(ls: seq<Line>): (n: nat)
    ensures n <= |ls|
    ensures forall i :: 0 <= i < n ==> ls[i].HeaderLine?
    ensures n < |ls| ==> ls[n].ContentLine?
  {
    if ls != [] && ls[0].HeaderLine? then 1 + HeaderCount(ls[1..]) else 0
  }

  /** The length of the run of other lines at the front. */
  function ContentCount(ls: seq<Line>): (n: nat)
    ensures n <= |ls|
    ensures forall i :: 0 <= i < n ==> ls[i].ContentLine?
    ensures n < |ls| ==> ls[n].HeaderLine?
  {
    if ls != [] && ls[0].ContentLine? then 1 + ContentCount(ls[1..]) else 0
  }

  /** `headers` with those of the run at the front; a later one of the same name wins. */
  function HeadersAfter(headers: map<string, string>, ls: seq<Line>): map<string, string>
    decreases |ls|
  {
    if ls != [] && ls[0].HeaderLine? then HeadersAfter(headers[ls[0].name := ls[0].value], ls[1..]) else headers
  }

  /** The content lines at the front. */
  function TextsOf(ls: seq<Line>): seq<string> {
    if ls != [] && ls[0].ContentLine? then [ls[0].text] + TextsOf(ls[1..]) else []
  }

  /** An absent header and an empty one are both missing. */
  predicate Missing(headers: map<string, string>, name: string) {
    name !in headers || headers[name] == ""
  }

  function MissingOf(headers: map<string, string>, required: seq<string>): ParseError {
    if required == [] then []
    else (if Missing(headers, required[0]) then [required[0]] else []) + MissingOf(headers, required[1..])
  }

  /** What is left after the leading headers. */
  function Body(ls: seq<Line>): (body: seq<Line>)
    ensures |body| <= |ls| && (ls != [] && ls[0].HeaderLine? ==> |body| < |ls|)
  {
    if ls != [] && ls[0].HeaderLine? then Body(ls[1..]) else ls
  }

  /** What is left after the leading content lines. */
  function SkipContent(ls: seq<Line>): (rest: seq<Line>)
    ensures |rest| <= |ls| && (ls != [] && ls[0].ContentLine? ==> |rest| < |ls|)
  {
    if ls != [] && ls[0].ContentLine? then SkipContent(ls[1..]) else ls
  }

  /** What is left after a group of headers and its content: less than before. */
  function AfterBody(ls: seq<Line>): (rest: seq<Line>)
    ensures ls != [] ==> |rest| < |ls|
  {
    SkipContent(Body(ls))
  }

  function Prepend(files: seq<ContextFile>, r: Result<seq<ContextFile>, ParseError>): Result<seq<ContextFile>, ParseError> {
    if r.Err? then r else Ok(files + r.value)
  }

  function ParseContexts(ls: seq<Line>): Result<seq<ContextFile>, ParseError>
    decreases |ls|
  {
    if ls == [] then Ok([])
    else
      var headers := HeadersAfter(map[], ls);
      if Missing(headers, "filename") then Err(["filename"])
      else Prepend([ContextFile(headers["filename"], Join(TextsOf(Body(ls)), "\n"))], ParseContexts(AfterBody(ls)))
  }

  function ParseLines(ls: seq<Line>): Result<TestCase, ParseError> {
    var headers := HeadersAfter(map[], ls);
    var missing := (if Missing(headers, "description") then ["description"] else [])
                   + (if Missing(headers, "filename") then ["filename"] else []);
    if missing != [] then Err(missing)
    else
      var contexts := ParseContexts(AfterBody(ls));
      if contexts.Err? then Err(contexts.error)
      else Ok(TestCase(headers["description"], headers["filename"], Join(TextsOf(Body(ls)), "\n"), contexts.value))
  }

  // ---------------------------------------------------------------- the parser

  /** One line matched against the header pattern. */
  method MatchHeader(lines: seq<string>, i: nat) returns (header: Option<Header>)
    requires i < |lines|
    ensures Classified(lines)[i] == match header
                                    case Some(h) => HeaderLine(ToLowerCase(h.name), h.value)
                                    case None => ContentLine(lines[i])
  {
    header := HeaderOf(lines[i]);
    ClassifiedAt(lines, i);
  }

  method ParseHeaders(lines: seq<string>, startIndex: nat, requiredHeaders: seq<string>)
    returns (headers: map<string, string>, contentStartIndex: nat, missingHeaders: ParseError)
    requires startIndex <= |lines|
    ensures contentStartIndex == startIndex + HeaderCount(Classified(lines)[startIndex..]) <= |lines|
    ensures headers == HeadersAfter(map[], Classified(lines)[startIndex..])
    ensures missingHeaders == MissingOf(headers, requiredHeaders)
  {
    headers := map[];
    contentStartIndex := startIndex;
    ghost var ls := Classified(lines);
    ghost var end, all := startIndex + HeaderCount(ls[startIndex..]), HeadersAfter(map[], ls[startIndex..]);
    var i := startIndex;
    while i < |lines|
      invariant startIndex <= i <= |lines| && contentStartIndex == i
      invariant HeadersFrom(headers, ls, i, end, all)
    {
      var headerMatch := MatchHeader(lines, i);
      NextHeader(headers, ls, i, end, all);
      if headerMatch.Some? {
        var header := headerMatch.value;
        headers := headers[ToLowerCase(header.name) := header.value];
        contentStartIndex := i + 1;
      } else {
        break;
      }
      i := i + 1;
    }
    if i == |lines| { NoMoreHeaders(headers, ls, end, all); }
    missingHeaders := MissingOf(headers, requiredHeaders);
  }

  lemma NoMoreHeaders(headers: map<string, string>, ls: seq<Line>, end: nat, all: map<string, string>)
    requires HeadersFrom(headers, ls, |ls|, end, all)
    ensures end == |ls| && all == headers
  {
  }

  /** From line `i` on the header lines end at `end` and make `all` of these headers. */
  ghost predicate HeadersFrom(headers: map<string, string>, ls: seq<Line>, i: nat, end: nat, all: map<string, string>)
    requires i <= |ls|
  {
    i + HeaderCount(ls[i..]) == end && HeadersAfter(headers, ls[i..]) == all
  }

  lemma NextHeader(headers: map<string, string>, ls: seq<Line>, i: nat, end: nat, all: map<string, string>)
    requires i < |ls| && HeadersFrom(headers, ls, i, end, all)
    ensures ls[i].HeaderLine? ==> HeadersFrom(headers[ls[i].name := ls[i].value], ls, i + 1, end, all)
    ensures !ls[i].HeaderLine? ==> end == i && all == headers
  {
    DropDrop(ls, i, 1);
  }

  lemma NextContent(ls: seq<Line>, i: nat, texts: seq<string>)
    requires i < |ls|
    ensures ContentCount(ls[i..]) == if ls[i].ContentLine? then 1 + ContentCount(ls[i + 1..]) else 0
    ensures texts + TextsOf(ls[i..])
         == if ls[i].ContentLine? then (texts + [ls[i].text]) + TextsOf(ls[i + 1..]) else texts
  {
    DropDrop(ls, i, 1);
    if ls[i].ContentLine? {
      Associates(texts, [ls[i].text], TextsOf(ls[i + 1..]));
    } else {
      assert texts + [] == texts;
    }
  }

  method ReadUntilHeaders(lines: seq<string>, startIndex: nat) returns (content: string, nextHeaderIndex: nat)
    requires startIndex <= |lines|
    ensures nextHeaderIndex == startIndex + ContentCount(Classified(lines)[startIndex..]) <= |lines|
    ensures content == Join(TextsOf(Classified(lines)[startIndex..]), "\n")
  {
    var contentLines := [];
    ghost var ls := Classified(lines);
    ghost var end, all := startIndex + ContentCount(ls[startIndex..]), TextsOf(ls[startIndex..]);
    assert [] + all == all;
    for i := startIndex to |lines|
      invariant i + ContentCount(ls[i..]) == end
      invariant contentLines + TextsOf(ls[i..]) == all
    {
      var headerMatch := MatchHeader(lines, i);
      NextContent(ls, i, contentLines);
      if headerMatch.Some? {
        return Join(contentLines, "\n"), i;
      }
      contentLines := contentLines + [lines[i]];
    }
    assert ls[|lines|..] == [];
    assert contentLines + [] == contentLines;
    return Join(contentLines, "\n"), |lines|;
  }

  method ParseTestCaseFile(content: string) returns (result: Result<TestCase, ParseError>)
    ensures result == ParseLines(Classified(SplitLines(content)))
  {
    var normalizedContent := ReplaceAll(ReplaceAll(content, "\r\n", "\n"), "\r", "\n");
    LinesOfNormalized(content);
    var lines := SplitLines(normalizedContent);
    ghost var ls := Classified(lines);
    assert ls[0..] == ls;
    var headers, contentStartIndex, missing := ParseHeaders(lines, 0, ["description", "filename"]);
    MissingOfTwo(headers, "description", "filename");
    if missing != [] {
      return Err(missing);
    }
    var mainContent, nextHeaderIndex := ReadUntilHeaders(lines, contentStartIndex);
    BodyByIndex(ls, 0, contentStartIndex, nextHeaderIndex);
    var contextFiles := ParseContextFiles(lines, nextHeaderIndex);
    if contextFiles.Err? {
      return Err(contextFiles.error);
    }
    return Ok(TestCase(headers["description"], headers["filename"], mainContent, contextFiles.value));
  }

  /** The rounds over context files end, since each begins on a header line and so moves on. */
  method ParseContextFiles(lines: seq<string>, nextHeaderIndex: nat) returns (result: Result<seq<ContextFile>, ParseError>)
    requires nextHeaderIndex <= |lines|
    requires nextHeaderIndex < |lines| ==> Classified(lines)[nextHeaderIndex].HeaderLine?
    ensures result == ParseContexts(Classified(lines)[nextHeaderIndex..])
  {
    ghost var ls := Classified(lines);
    var contextFiles: seq<ContextFile> := [];
    ghost var contexts := ParseContexts(ls[nextHeaderIndex..]);
    assert contexts.Ok? ==> [] + contexts.value == contexts.value;
    var currentIndex := nextHeaderIndex;
    while currentIndex < |lines|
      invariant nextHeaderIndex <= currentIndex <= |lines|
      invariant currentIndex < |lines| ==> ls[currentIndex].HeaderLine?
      invariant contexts == Prepend(contextFiles, ParseContexts(ls[currentIndex..]))
    {
      var headers, contentStart, missing := ParseHeaders(lines, currentIndex, ["filename"]);
      MissingOfOne(headers, "filename");
      if missing != [] {
        return Err(missing);
      }
      var fileContent, nextIndex := ReadUntilHeaders(lines, contentStart);
      BodyByIndex(ls, currentIndex, contentStart, nextIndex);
      PrependTwice(contextFiles, ContextFile(headers["filename"], fileContent), ParseContexts(ls[nextIndex..]));
      contextFiles := contextFiles + [ContextFile(headers["filename"], fileContent)];
      assert ls[currentIndex..][0] == ls[currentIndex];
      currentIndex := nextIndex;
    }
    assert ls[|lines|..] == [] && contextFiles + [] == contextFiles;
    return Ok(contextFiles);
  }

  lemma MissingOfOne(headers: map<string, string>, a: string)
    ensures MissingOf(headers, [a]) == if Missing(headers, a) then [a] else []
  {
    assert MissingOf(headers, [a][1..]) == [];
  }

  lemma MissingOfTwo(headers: map<string, string>, a: string, b: string)
    ensures MissingOf(headers, [a, b]) == (if Missing(headers, a) then [a] else []) + (if Missing(headers, b) then [b] else [])
  {
    assert [a, b][1..] == [b];
    MissingOfOne(headers, b);
  }

  lemma PrependTwice(files: seq<ContextFile>, file: ContextFile, r: Result<seq<ContextFile>, ParseError>)
    ensures Prepend(files, Prepend([file], r)) == Prepend(files + [file], r)
  {
    if r.Ok? { Associates(files, [file], r.value); }
  }

  /** Reading by index is reading from the front of what is left. */
  lemma BodyByIndex(ls: seq<Line>, i: nat, start: nat, next: nat)
    requires i <= |ls| && start == i + HeaderCount(ls[i..]) <= |ls| && next == start + ContentCount(ls[start..]) <= |ls|
    ensures Body(ls[i..]) == ls[start..] && AfterBody(ls[i..]) == ls[next..]
    ensures next < |ls| ==> ls[next].HeaderLine?
  {
    BodyAt(ls, i);
    SkipAt(ls, start);
    NextIsHeader(ls, start);
  }

  lemma BodyAt(ls: seq<Line>, i: nat)
    requires i <= |ls|
    ensures Body(ls[i..]) == ls[i + HeaderCount(ls[i..])..]
  {
    BodyIsDrop(ls[i..]);
    DropDrop(ls, i, HeaderCount(ls[i..]));
  }

  lemma SkipAt(ls: seq<Line>, i: nat)
    requires i <= |ls|
    ensures SkipContent(ls[i..]) == ls[i + ContentCount(ls[i..])..]
  {
    SkipIsDrop(ls[i..]);
    DropDrop(ls, i, ContentCount(ls[i..]));
  }

  lemma NextIsHeader(ls: seq<Line>, i: nat)
    requires i <= |ls|
    ensures var next := i + ContentCount(ls[i..]); next < |ls| ==> ls[next].HeaderLine?
  {
    var n := ContentCount(ls[i..]);
    if i + n < |ls| { assert ls[i..][n] == ls[i + n]; }
  }

  lemma {:induction false} BodyIsDrop(ls: seq<Line>)
    ensures Body(ls) == ls[HeaderCount(ls)..]
  {
    if ls != [] && ls[0].HeaderLine? {
      BodyIsDrop(ls[1..]);
      DropDrop(ls, 1, HeaderCount(ls[1..]));
    }
  }

  lemma {:induction false} SkipIsDrop(ls: seq<Line>)
    ensures SkipContent(ls) == ls[ContentCount(ls)..]
  {
    if ls != [] && ls[0].ContentLine? {
      SkipIsDrop(ls[1..]);
      DropDrop(ls, 1, ContentCount(ls[1..]));
    }
  }

  lemma LinesOfNormalized(s: string)
    ensures SplitLines(ReplaceAll(ReplaceAll(s, "\r\n", "\n"), "\r", "\n")) == SplitLines(s)
  {
    ReplacedIsNormalized(s);
    LinesOfNormalizeBreaks(s);
  }

  lemma {:induction false} ReplacedIsNormalized(s: string)
    ensures ReplaceAll(ReplaceAll(s, "\r\n", "\n"), "\r", "\n") == NormalizeBreaks(s)
    decreases |s|
  {
    if s != "" {
      if "\r\n" <= s {
        ReplacedIsNormalized(s[2..]);
        var x := ReplaceAll(s[2..], "\r\n", "\n");
        assert ("\n" + x)[1..] == x;
      } else {
        ReplacedIsNormalized(s[1..]);
        var x := ReplaceAll(s[1..], "\r\n", "\n");
        var y := [s[0]] + x;
        assert y[1..] == x;
        assert y[0] == s[0];
        assert "\r" <= y <==> y[0] == '\r';
      }
    }
  }

  lemma {:induction false} LinesOfNormalizeBreaks(s: string)
    ensures SplitLines(NormalizeBreaks(s)) == SplitLines(s)
    decreases |s|
  {
    if s != "" {
      var tail := if "\r\n" <= s then s[2..] else s[1..];
      LinesOfNormalizeBreaks(tail);
      var c := if IsBreak(s[0]) then '\n' else s[0];
      var n := [c] + NormalizeBreaks(tail);
      assert NormalizeBreaks(s) == n && n[1..] == NormalizeBreaks(tail);
      assert !("\r\n" <= n);
    }
  }

  // ---------------------------------------------------------------- every line has its place

  /** The content blocks: the main one, then one for each further group of headers. */
  function Blocks(ls: seq<Line>): seq<seq<string>>
    decreases |ls|
  {
    if ls == [] then [] else [TextsOf(Body(ls))] + Blocks(AfterBody(ls))
  }

  /** The lines that are not headers. */
  function Contents(ls: seq<Line>): seq<string> {
    if ls == [] then []
    else (match ls[0] case HeaderLine(_, _) => [] case ContentLine(text) => [text]) + Contents(ls[1..])
  }

  function JoinedBlocks(blocks: seq<seq<string>>): (texts: seq<string>)
    ensures |texts| == |blocks| && forall i :: 0 <= i < |blocks| ==> texts[i] == Join(blocks[i], "\n")
  {
    seq(|blocks|, i requires 0 <= i < |blocks| => Join(blocks[i], "\n"))
  }

  function ContextContents(files: seq<ContextFile>): (texts: seq<string>)
    ensures |texts| == |files| && forall i :: 0 <= i < |files| ==> texts[i] == files[i].content
  {
    seq(|files|, i requires 0 <= i < |files| => files[i].content)
  }

  /** Every line that is not a header lies in exactly one content block of the result, in order. */
  lemma EveryContentLineHasItsBlock(ls: seq<Line>)
    requires ls != [] && ParseLines(ls).Ok?
    ensures var testCase := ParseLines(ls).value;
      && Concat(Blocks(ls)) == Contents(ls)
      && [testCase.input] + ContextContents(testCase.contextFiles) == JoinedBlocks(Blocks(ls))
  {
    BlocksAreContents(ls);
    ParsedParts(ls);
    ContextsAreBlocks(AfterBody(ls));
    JoinedCons(TextsOf(Body(ls)), Blocks(AfterBody(ls)));
  }

  lemma ParsedParts(ls: seq<Line>)
    requires ParseLines(ls).Ok?
    ensures ParseContexts(AfterBody(ls)) == Ok(ParseLines(ls).value.contextFiles)
    ensures ParseLines(ls).value.input == Join(TextsOf(Body(ls)), "\n")
  {
  }

  lemma JoinedCons(block: seq<string>, blocks: seq<seq<string>>)
    ensures JoinedBlocks([block] + blocks) == [Join(block, "\n")] + JoinedBlocks(blocks)
  {
  }

  lemma {:induction false} BlocksAreContents(ls: seq<Line>)
    ensures Concat(Blocks(ls)) == Contents(ls)
    decreases |ls|
  {
    if ls != [] {
      BlocksAreContents(AfterBody(ls));
      ConcatCons(TextsOf(Body(ls)), Blocks(AfterBody(ls)));
      SkipHeaders(ls);
      TextsFirst(Body(ls));
    }
  }

  lemma {:induction false} SkipHeaders(ls: seq<Line>)
    ensures Contents(Body(ls)) == Contents(ls)
  {
    if ls != [] && ls[0].HeaderLine? { SkipHeaders(ls[1..]); }
  }

  lemma {:induction false} TextsFirst(ls: seq<Line>)
    ensures Contents(ls) == TextsOf(ls) + Contents(SkipContent(ls))
  {
    if ls != [] && ls[0].ContentLine? {
      TextsFirst(ls[1..]);
      Associates([ls[0].text], TextsOf(ls[1..]), Contents(SkipContent(ls)));
    }
  }

  lemma {:induction false} ContextsAreBlocks(ls: seq<Line>)
    requires ParseContexts(ls).Ok?
    ensures ContextContents(ParseContexts(ls).value) == JoinedBlocks(Blocks(ls))
    decreases |ls|
  {
    if ls != [] {
      var rest := ParseContexts(AfterBody(ls));
      ContextsAreBlocks(AfterBody(ls));
      var file := ContextFile(HeadersAfter(map[], ls)["filename"], Join(TextsOf(Body(ls)), "\n"));
      assert ParseContexts(ls) == Prepend([file], rest) == Ok([file] + rest.value);
      OneMore(file, rest.value, TextsOf(Body(ls)), Blocks(AfterBody(ls)));
    }
  }

  lemma OneMore(file: ContextFile, files: seq<ContextFile>, block: seq<string>, blocks: seq<seq<string>>)
    requires file.content == Join(block, "\n") && ContextContents(files) == JoinedBlocks(blocks)
    ensures ContextContents([file] + files) == JoinedBlocks([block] + blocks)
  {
    assert ContextContents([file] + files) == [file.content] + ContextContents(files);
    JoinedCons(block, blocks);
  }

  // ---------------------------------------------------------------- parsing undoes printing

  function HeaderText(name: string, value: string): string {
    MARK + (name + (":" + (" " + value)))
  }

  function PrintContexts(files: seq<ContextFile>): seq<string> {
    if files == [] then []
    else [HeaderText("Filename", files[0].filepath)] + SplitLines(files[0].content) + PrintContexts(files[1..])
  }

  function PrintLines(testCase: TestCase): seq<string> {
    [HeaderText("Description", testCase.description), HeaderText("Filename", testCase.filename)]
    + (SplitLines(testCase.input) + PrintContexts(testCase.contextFiles))
  }

  function Print(testCase: TestCase): string {
    Join(PrintLines(testCase), "\n")
  }

  predicate PlainValue(value: string) {
    value != "" && Trimmed(value) && NoTerminator(value)
  }

  /** No carriage return, and no line that reads as a header. */
  predicate PlainContent(content: string) {
    (forall i :: 0 <= i < |content| ==> content[i] != '\r')
    && forall i :: 0 <= i < |SplitLines(content)| ==> Classify(SplitLines(content)[i]) == ContentLine(SplitLines(content)[i])
  }

  predicate Printable(testCase: TestCase) {
    PlainValue(testCase.description) && PlainValue(testCase.filename) && PlainContent(testCase.input)
    && forall i :: 0 <= i < |testCase.contextFiles| ==>
         PlainValue(testCase.contextFiles[i].filepath) && PlainContent(testCase.contextFiles[i].content)
  }

  /** Parsing a printed case gives that case back exactly when the case is printable. */
  lemma ParseUndoesPrint(testCase: TestCase)
    ensures ParseLines(Classified(SplitLines(Print(testCase)))) == Ok(testCase) <==> Printable(testCase)
  {
    if Printable(testCase) {
      PrintedIsParsed(testCase);
    }
    if ParseLines(Classified(SplitLines(Print(testCase)))) == Ok(testCase) {
      ParsedIsPrintable(Print(testCase));
    }
  }

  lemma PrintedIsParsed(testCase: TestCase)
    requires Printable(testCase)
    ensures ParseLines(Classified(SplitLines(Print(testCase)))) == Ok(testCase)
  {
    var contexts := PrintContexts(testCase.contextFiles);
    PrintedLinesAreBreakless(testCase);
    SplitJoinLines(PrintLines(testCase));
    var tail := SplitLines(testCase.input) + contexts;
    ClassifyMain(testCase.description, testCase.filename, tail);
    ReadBody(testCase.input, contexts, testCase.contextFiles);
    ParsePrintedContexts(testCase.contextFiles);
    ParseMain(testCase, Classified(tail), Classified(contexts));
  }

  lemma ClassifyMain(description: string, filename: string, tail: seq<string>)
    requires PlainValue(description) && PlainValue(filename)
    ensures Classified([HeaderText("Description", description), HeaderText("Filename", filename)] + tail)
         == [HeaderLine("description", description), HeaderLine("filename", filename)] + Classified(tail)
  {
    var first, second := HeaderText("Description", description), HeaderText("Filename", filename);
    ClassifyDescription(description);
    ClassifyFilename(filename);
    ClassifiedAppend([first, second], tail);
    ClassifiedTwo(first, second);
  }

  lemma ParseMain(testCase: TestCase, tail: seq<Line>, contexts: seq<Line>)
    requires testCase.description != "" && testCase.filename != ""
    requires tail != [] && tail[0].ContentLine? && Join(TextsOf(tail), "\n") == testCase.input
    requires SkipContent(tail) == contexts && ParseContexts(contexts) == Ok(testCase.contextFiles)
    ensures ParseLines([HeaderLine("description", testCase.description), HeaderLine("filename", testCase.filename)] + tail) == Ok(testCase)
  {
    var a, b := HeaderLine("description", testCase.description), HeaderLine("filename", testCase.filename);
    var ls := [a, b] + tail;
    HeadersOfTwo(ls, a, b, tail);
    assert AfterBody(ls) == contexts;
  }

  lemma HeadersOfTwo(ls: seq<Line>, a: Line, b: Line, rest: seq<Line>)
    requires a.HeaderLine? && b.HeaderLine? && ls == [a, b] + rest && rest != [] && rest[0].ContentLine?
    ensures Body(ls) == rest
    ensures HeadersAfter(map[], ls) == map[][a.name := a.value][b.name := b.value]
  {
    var one := map[][a.name := a.value];
    assert ls[0] == a && ls[1..] == [b] + rest;
    HeadersOfOne(one, [b] + rest, b, rest);
  }

  lemma HeadersOfOne(headers: map<string, string>, ls: seq<Line>, a: Line, rest: seq<Line>)
    requires a.HeaderLine? && ls == [a] + rest && rest != [] && rest[0].ContentLine?
    ensures Body(ls) == rest
    ensures HeadersAfter(headers, ls) == headers[a.name := a.value]
  {
    assert ls[0] == a && ls[1..] == rest;
    assert HeadersAfter(headers[a.name := a.value], rest) == headers[a.name := a.value];
  }

  lemma {:induction false} ParsePrintedContexts(files: seq<ContextFile>)
    requires forall i :: 0 <= i < |files| ==> PlainValue(files[i].filepath) && PlainContent(files[i].content)
    ensures ParseContexts(Classified(PrintContexts(files))) == Ok(files)
  {
    if files != [] {
      var file, more := files[0], PrintContexts(files[1..]);
      ParsePrintedContexts(files[1..]);
      ParsePrintedContext(file, files[1..], more);
      assert [file] + files[1..] == files;
    }
  }

  lemma ParsePrintedContext(file: ContextFile, files: seq<ContextFile>, more: seq<string>)
    requires PlainValue(file.filepath) && PlainContent(file.content) && (files != [] ==> PlainValue(files[0].filepath))
    requires more == PrintContexts(files) && ParseContexts(Classified(more)) == Ok(files)
    ensures ParseContexts(Classified(PrintContexts([file] + files))) == Ok([file] + files)
  {
    var tail := SplitLines(file.content) + more;
    assert ([file] + files)[1..] == files;
    assert PrintContexts([file] + files) == [HeaderText("Filename", file.filepath)] + tail;
    ClassifyContext(file.filepath, tail);
    ReadBody(file.content, more, files);
    ParseContext(file, files, Classified(tail), Classified(more));
  }

  lemma ClassifyContext(filepath: string, tail: seq<string>)
    requires PlainValue(filepath)
    ensures Classified([HeaderText("Filename", filepath)] + tail) == [HeaderLine("filename", filepath)] + Classified(tail)
  {
    var first := HeaderText("Filename", filepath);
    ClassifyFilename(filepath);
    ClassifiedAppend([first], tail);
    ClassifiedOne(first);
  }

  lemma ParseContext(file: ContextFile, files: seq<ContextFile>, tail: seq<Line>, more: seq<Line>)
    requires file.filepath != "" && tail != [] && tail[0].ContentLine? && Join(TextsOf(tail), "\n") == file.content
    requires SkipContent(tail) == more && ParseContexts(more) == Ok(files)
    ensures ParseContexts([HeaderLine("filename", file.filepath)] + tail) == Ok([file] + files)
  {
    var head := HeaderLine("filename", file.filepath);
    var ls := [head] + tail;
    HeadersOfOne(map[], ls, head, tail);
    assert AfterBody(ls) == more;
  }

  /** A printed content is read back up to the next printed header. */
  lemma ReadBody(content: string, more: seq<string>, files: seq<ContextFile>)
    requires PlainContent(content) && more == PrintContexts(files)
    requires files != [] ==> PlainValue(files[0].filepath)
    ensures var ls := Classified(SplitLines(content) + more);
      && ls != [] && ls[0].ContentLine?
      && Join(TextsOf(ls), "\n") == content
      && SkipContent(ls) == Classified(more)
  {
    var lines := SplitLines(content);
    ClassifiedAppend(lines, more);
    if files != [] {
      assert more[0] == HeaderText("Filename", files[0].filepath);
      ClassifyFilename(files[0].filepath);
      ClassifiedAt(more, 0);
    }
    ReadPlain(lines, Classified(more));
    JoinSplitLines(content);
    NormalizedAlready(content);
    ClassifiedAt(lines, 0);
  }

  lemma {:induction false} ReadPlain(lines: seq<string>, rest: seq<Line>)
    requires forall i :: 0 <= i < |lines| ==> Classify(lines[i]) == ContentLine(lines[i])
    requires rest == [] || rest[0].HeaderLine?
    ensures TextsOf(Classified(lines) + rest) == lines && SkipContent(Classified(lines) + rest) == rest
  {
    if lines == [] {
      assert [] + rest == rest;
    } else {
      var line, tail := ContentLine(lines[0]), Classified(lines[1..]);
      ReadPlain(lines[1..], rest);
      assert lines == [lines[0]] + lines[1..];
      ClassifiedAppend([lines[0]], lines[1..]);
      ClassifiedOne(lines[0]);
      Associates([line], tail, rest);
      ReadLine(line, tail + rest);
    }
  }

  lemma ReadLine(line: Line, rest: seq<Line>)
    requires line.ContentLine?
    ensures TextsOf([line] + rest) == [line.text] + TextsOf(rest) && SkipContent([line] + rest) == SkipContent(rest)
  {
    assert ([line] + rest)[1..] == rest;
  }

  lemma {:induction false} NormalizedAlready(s: string)
    requires forall i :: 0 <= i < |s| ==> s[i] != '\r'
    ensures NormalizeBreaks(s) == s
  {
    if s != "" {
      NormalizedAlready(s[1..]);
      assert s == [s[0]] + s[1..];
    }
  }

  lemma ClassifiedOne(line: string)
    ensures Classified([line]) == [Classify(line)]
  {
    assert [line][..0] == [];
  }

  lemma ClassifiedTwo(a: string, b: string)
    ensures Classified([a, b]) == [Classify(a), Classify(b)]
  {
    assert [a, b][..1] == [a];
    ClassifiedOne(a);
  }

  lemma {:induction false} ClassifiedAppend(a: seq<string>, b: seq<string>)
    ensures Classified(a + b) == Classified(a) + Classified(b)
    decreases |b|
  {
    if b == [] {
      assert a + b == a;
    } else {
      var front := b[..|b| - 1];
      ClassifiedAppend(a, front);
      assert (a + b)[..|a + b| - 1] == a + front && (a + b)[|a + b| - 1] == b[|b| - 1];
      Associates(Classified(a), Classified(front), [Classify(b[|b| - 1])]);
    }
  }

  // ---- printed headers are read back

  lemma HeaderIsRead(name: string, value: string)
    requires name != "" && Find(name + ":", ':') == |name| && PlainValue(value)
    ensures HeaderOf(HeaderText(name, value)) == Some(Header(name, value))
  {
    RestIsRead(name, value);
    ReadMark(name + (":" + (" " + value)));
  }

  lemma RestIsRead(name: string, value: string)
    requires name != "" && Find(name + ":", ':') == |name| && PlainValue(value)
    ensures HeaderAfterMark(name + (":" + (" " + value))) == Some(Header(name, value))
  {
    FindSkips(name, " " + value);
    TrimOfTrimmed(value);
    ReadRest(name, " " + value);
    HeaderFrom(name + (":" + (" " + value)), name, value);
  }

  lemma HeaderFrom(rest: string, name: string, value: string)
    requires var colon := Find(rest, ':');
      0 < colon < |rest| && rest[..colon] == name && TrimStart(rest[colon + 1..]) == value
    requires NoTerminator(value) && Trim(value) == value
    ensures HeaderAfterMark(rest) == Some(Header(name, value))
  {
  }

  lemma ReadMark(rest: string)
    ensures HeaderOf(MARK + rest) == HeaderAfterMark(rest)
  {
    assert (MARK + rest)[|MARK|..] == rest;
  }

  lemma ReadRest(name: string, spaced: string)
    requires name != ""
    ensures var rest := name + (":" + spaced); rest[..|name|] == name && rest[|name| + 1..] == spaced && |rest| > |name|
  {
  }

  lemma {:induction false} FindSkips(name: string, rest: string)
    requires Find(name + ":", ':') == |name|
    ensures Find(name + (":" + rest), ':') == |name|
  {
    var s, t := name + ":", name + (":" + rest);
    assert t[0] == s[0];
    if name != "" {
      assert s[1..] == name[1..] + ":" && t[1..] == name[1..] + (":" + rest);
      FindSkips(name[1..], rest);
    }
  }

  lemma TrimOfTrimmed(value: string)
    requires PlainValue(value)
    ensures TrimStart(" " + value) == value && Trim(value) == value
  {
    assert (" " + value)[1..] == value;
  }

  lemma ClassifyFilename(value: string)
    requires PlainValue(value)
    ensures Classify(HeaderText("Filename", value)) == HeaderLine("filename", value)
  {
    FilenameIsName();
    HeaderIsRead("Filename", value);
  }

  lemma FilenameIsName()
    ensures Find("Filename" + ":", ':') == |"Filename"| && ToLowerCase("Filename") == "filename"
  {
    FindColon("Filename");
  }

  lemma ClassifyDescription(value: string)
    requires PlainValue(value)
    ensures Classify(HeaderText("Description", value)) == HeaderLine("description", value)
  {
    DescriptionIsName();
    HeaderIsRead("Description", value);
  }

  lemma DescriptionIsName()
    ensures Find("Description" + ":", ':') == |"Description"| && ToLowerCase("Description") == "description"
  {
    FindColon("Description");
  }

  lemma {:induction false} FindColon(name: string)
    requires forall i :: 0 <= i < |name| ==> name[i] != ':'
    ensures Find(name + ":", ':') == |name|
  {
    var s := name + ":";
    if name != "" {
      assert s[0] == name[0] && s[1..] == name[1..] + ":";
      FindColon(name[1..]);
    }
  }

  lemma PrintedLinesAreBreakless(testCase: TestCase)
    requires Printable(testCase)
    ensures forall line :: line in PrintLines(testCase) ==> Breakless(line)
  {
    HeaderIsBreakless("Description", testCase.description);
    HeaderIsBreakless("Filename", testCase.filename);
    PrintedContextsAreBreakless(testCase.contextFiles);
  }

  lemma {:induction false} PrintedContextsAreBreakless(files: seq<ContextFile>)
    requires forall i :: 0 <= i < |files| ==> PlainValue(files[i].filepath)
    ensures forall line :: line in PrintContexts(files) ==> Breakless(line)
  {
    if files != [] {
      HeaderIsBreakless("Filename", files[0].filepath);
      PrintedContextsAreBreakless(files[1..]);
    }
  }

  lemma HeaderIsBreakless(name: string, value: string)
    requires Breakless(name) && PlainValue(value)
    ensures Breakless(HeaderText(name, value))
  {
    var text := HeaderText(name, value);
    forall c | c in text ensures !IsBreak(c) {
      assert c in MARK || c in name || c in ":" || c in " " || c in value;
    }
  }

  // ---------------------------------------------------------------- what a parser can return

  /** A value that is trimmed and on one line, perhaps empty; or a line that is content and read as such. */
  predicate PlainLine(l: Line) {
    match l
    case HeaderLine(_, value) => value == "" || PlainValue(value)
    case ContentLine(text) => Breakless(text) && Classify(text) == l
  }

  lemma {:induction false} TrimEndIsPart(s: string)
    ensures TrimEnd(s) <= s && (TrimEnd(s) != "" ==> !IsSpace(TrimEnd(s)[|TrimEnd(s)| - 1]))
  {
    if s != "" && IsSpace(s[|s| - 1]) {
      TrimEndIsPart(s[..|s| - 1]);
    }
  }

  lemma {:induction false} TrimStartIsPart(s: string)
    ensures |TrimStart(s)| <= |s| && TrimStart(s) == s[|s| - |TrimStart(s)|..]
    ensures TrimStart(s) != "" ==> !IsSpace(TrimStart(s)[0])
  {
    if s != "" && IsSpace(s[0]) {
      TrimStartIsPart(s[1..]);
    }
  }

  lemma TrimIsPlain(s: string)
    requires NoTerminator(s)
    ensures Trim(s) == "" || PlainValue(Trim(s))
  {
    var x := TrimStart(s);
    var y := TrimEnd(x);
    TrimStartIsPart(s);
    TrimEndIsPart(x);
    forall i | 0 <= i < |y| ensures y[i] == x[i] && y[i] == s[|s| - |x| + i] {}
  }

  lemma ClassifyIsPlain(line: string)
    requires Breakless(line)
    ensures PlainLine(Classify(line))
  {
    if MARK <= line {
      var rest := line[|MARK|..];
      var colon := Find(rest, ':');
      if 0 < colon < |rest| {
        var value := TrimStart(rest[colon + 1..]);
        if NoTerminator(value) {
          TrimIsPlain(value);
        }
      }
    }
  }

  predicate AllPlain(ls: seq<Line>) {
    forall i :: 0 <= i < |ls| ==> PlainLine(ls[i])
  }

  lemma ClassifiedIsPlain(content: string)
    ensures AllPlain(Classified(SplitLines(content)))
  {
    var lines := SplitLines(content);
    forall i | 0 <= i < |lines| ensures PlainLine(Classified(lines)[i]) {
      assert lines[i] in lines;
      ClassifyIsPlain(lines[i]);
      ClassifiedAt(lines, i);
    }
  }

  lemma {:induction false} HeadersArePlain(headers: map<string, string>, ls: seq<Line>)
    requires AllPlain(ls) && forall name :: name in headers ==> headers[name] == "" || PlainValue(headers[name])
    ensures forall name :: name in HeadersAfter(headers, ls) && HeadersAfter(headers, ls)[name] != ""
                           ==> PlainValue(HeadersAfter(headers, ls)[name])
    decreases |ls|
  {
    if ls != [] && ls[0].HeaderLine? {
      assert PlainLine(ls[0]);
      HeadersArePlain(headers[ls[0].name := ls[0].value], ls[1..]);
    }
  }

  lemma {:induction false} TextsArePlain(ls: seq<Line>)
    requires AllPlain(ls)
    ensures forall i :: 0 <= i < |TextsOf(ls)| ==> Breakless(TextsOf(ls)[i]) && Classify(TextsOf(ls)[i]) == ContentLine(TextsOf(ls)[i])
  {
    if ls != [] && ls[0].ContentLine? {
      assert PlainLine(ls[0]);
      TextsArePlain(ls[1..]);
    }
  }

  lemma {:induction false} JoinHasNoReturn(texts: seq<string>)
    requires forall i :: 0 <= i < |texts| ==> Breakless(texts[i])
    ensures forall i :: 0 <= i < |Join(texts, "\n")| ==> Join(texts, "\n")[i] != '\r'
  {
    if texts != [] {
      var first := texts[0];
      assert forall i :: 0 <= i < |first| ==> first[i] in first;
      if |texts| > 1 {
        JoinHasNoReturn(texts[1..]);
      }
    }
  }

  lemma ContentIsPlain(ls: seq<Line>)
    requires AllPlain(ls)
    ensures PlainContent(Join(TextsOf(ls), "\n"))
  {
    var texts := TextsOf(ls);
    TextsArePlain(ls);
    JoinHasNoReturn(texts);
    if texts != [] {
      SplitJoinLines(texts);
    } else {
      assert SplitLines("") == [""] && Classify("") == ContentLine("");
    }
  }

  lemma {:induction false} BodyIsPlain(ls: seq<Line>)
    requires AllPlain(ls)
    ensures AllPlain(Body(ls))
  {
    if ls != [] && ls[0].HeaderLine? {
      BodyIsPlain(ls[1..]);
    }
  }

  lemma {:induction false} RestIsPlain(ls: seq<Line>)
    requires AllPlain(ls)
    ensures AllPlain(SkipContent(ls))
  {
    if ls != [] && ls[0].ContentLine? {
      RestIsPlain(ls[1..]);
    }
  }

  predicate PlainFile(file: ContextFile) {
    PlainValue(file.filepath) && PlainContent(file.content)
  }

  lemma {:induction false} ContextsArePlain(ls: seq<Line>)
    requires AllPlain(ls) && ParseContexts(ls).Ok?
    ensures forall i :: 0 <= i < |ParseContexts(ls).value| ==> PlainFile(ParseContexts(ls).value[i])
    decreases |ls|
  {
    if ls != [] {
      HeadersArePlain(map[], ls);
      BodyIsPlain(ls);
      ContentIsPlain(Body(ls));
      RestIsPlain(Body(ls));
      ContextsArePlain(AfterBody(ls));
      var file := ContextFile(HeadersAfter(map[], ls)["filename"], Join(TextsOf(Body(ls)), "\n"));
      assert ParseContexts(ls) == Ok([file] + ParseContexts(AfterBody(ls)).value);
      assert PlainFile(file);
    }
  }

  /** Whatever the file, a test case that is parsed from it is printable. */
  lemma ParsedIsPrintable(content: string)
    ensures var r := ParseLines(Classified(SplitLines(content))); r.Ok? ==> Printable(r.value)
  {
    var ls := Classified(SplitLines(content));
    if ParseLines(ls).Ok? {
      ClassifiedIsPlain(content);
      HeadersArePlain(map[], ls);
      BodyIsPlain(ls);
      ContentIsPlain(Body(ls));
      RestIsPlain(Body(ls));
      ContextsArePlain(AfterBody(ls));
      var headers := HeadersAfter(map[], ls);
      assert !Missing(headers, "description") && !Missing(headers, "filename");
      var r := ParseLines(ls).value;
      forall i | 0 <= i < |r.contextFiles| ensures PlainValue(r.contextFiles[i].filepath) && PlainContent(r.contextFiles[i].content) {
        assert PlainFile(r.contextFiles[i]);
      }
    }
  }

  // ---------------------------------------------------------------- header lines as they are written

  /** A name without a colon, and after the colon the value between blanks. */
  predicate IsWrittenHeader(line: string, name: string, a: string, value: string, b: string) {
    && line == "#### " + (name + (":" + (a + (value + b))))
    && name != "" && (forall i :: 0 <= i < |name| ==> name[i] != ':')
    && AllBlank(a) && AllBlank(b) && (value != "" ==> !IsBlank(value[0]) && !IsBlank(value[|value| - 1]))
    && (value != "" ==> LacksTerminators(value + b))
  }

  /** Such a line is read as this name and value. */
  lemma WrittenHeaderIsRead(line: string, name: string, a: string, value: string, b: string)
    requires IsWrittenHeader(line, name, a, value, b)
    ensures HeaderOf(line) == Some(Header(name, value))
  {
    var spaced := a + (value + b);
    ReadMark(name + (":" + spaced));
    ColonIsFound(name, spaced);
    ReadRest(name, spaced);
    TrimTakesBlanks(a, value, b);
    StartIsTaken(a, value, b);
    var none := "";
    TrimTakesBlanks(none, value, b);
    assert none + (value + b) == value + b;
  }

  lemma StartIsTaken(a: string, value: string, b: string)
    requires AllBlank(a) && AllBlank(b) && (value != "" ==> !IsBlank(value[0]))
    ensures TrimStart(a + (value + b)) == if value == "" then "" else value + b
  {
    BlanksAreSpaces(a);
    BlanksAreSpaces(b);
    TrimStartTakes(a, value + b);
    if value == "" {
      assert value + b == b && b + "" == b;
      TrimStartTakes(b, "");
    } else {
      SpaceIsBlank(value[0]);
      assert (value + b)[0] == value[0];
    }
  }

  lemma {:induction false} ColonIsFound(name: string, rest: string)
    requires forall i :: 0 <= i < |name| ==> name[i] != ':'
    ensures Find(name + (":" + rest), ':') == |name|
  {
    if name == "" {
      assert name + (":" + rest) == ":" + rest;
    } else {
      assert (name + (":" + rest))[1..] == name[1..] + (":" + rest);
      ColonIsFound(name[1..], rest);
    }
  }

  /** And every line that is read as a header is written like this. */
  lemma EveryHeaderIsWritten(line: string) returns (name: string, a: string, value: string, b: string)
    requires HeaderOf(line).Some?
    ensures IsWrittenHeader(line, name, a, value, b)
  {
    var spaced;
    name, spaced := HeaderIsMarked(line);
    a, b := TrimSplits(spaced);
    value := Trim(spaced);
    StartIsTaken(a, value, b);
    DotsMatch(TrimStart(spaced));
  }

  lemma HeaderIsMarked(line: string) returns (name: string, spaced: string)
    requires HeaderOf(line).Some?
    ensures line == "#### " + (name + (":" + spaced)) && name != "" && (forall i :: 0 <= i < |name| ==> name[i] != ':')
    ensures NoTerminator(TrimStart(spaced))
  {
    var rest := line[|MARK|..];
    var colon := Find(rest, ':');
    ColonIsAt(rest);
    name, spaced := rest[..colon], rest[colon + 1..];
    assert rest == name + (":" + spaced);
    assert line == MARK + rest;
  }

  lemma DotsMatch(s: string)
    ensures NoTerminator(s) <==> LacksTerminators(s)
  {
    forall i | 0 <= i < |s| ensures IsLineTerminator(s[i]) <==> s[i] == '\n' || s[i] == '\r' || s[i] == '\U{2028}' || s[i] == '\U{2029}' {
    }
  }

  lemma {:induction false} ColonIsAt(s: string)
    ensures var n := Find(s, ':'); (n < |s| ==> s[n] == ':') && forall i :: 0 <= i < n ==> s[i] != ':'
  {
    if s != "" && s[0] != ':' {
      ColonIsAt(s[1..]);
    }
  }
}
