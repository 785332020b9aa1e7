/**
 * Logging a stream by complete lines (jetbrains/host/bootstrap-fork.ts:122-147).
 *
 * Written chunks are collected until a line is complete or too much is held;
 * then one piece is logged.
 */
module StreamLog {
  import opened Text

  const MAX_STREAM_BUFFER_LENGTH := 1024 * 1024

  /** The position of the last newline, or -1. */
  function LastNewline(s: string): (at: int)
    ensures -1 <= at < |s|
    ensures at >= 0 ==> s[at] == '\n'
    ensures forall i :: at < i < |s| ==> s[i] != '\n'
  {
    if s == "" then -1
    else if s[|s| - 1] == '\n' then |s| - 1
    else LastNewline(s[..|s| - 1])
  }

  // ---------------------------------------------------------------- specification

  datatype Log = Log(logged: seq<string>, buf: string)

  function AfterWrite(log: Log, chunk: string): Log {
    var held := log.buf + chunk;
    if |held| > MAX_STREAM_BUFFER_LENGTH then Log(log.logged + [held], "")
    else
      var eol := LastNewline(held);
      if eol == -1 then Log(log.logged, held) else Log(log.logged + [held[..eol]], held[eol + 1..])
  }

  function Run(chunks: seq<string>): Log {
    if chunks == [] then Log([], "") else AfterWrite(Run(chunks[..|chunks| - 1]), chunks[|chunks| - 1])
  }

  class Stream {
    var buf: string
    var logged: seq<string>

    function Contents(): Log
      reads this
    {
      Log(logged, buf)
    }

    constructor ()
      ensures Contents() == Run([])
    {
      buf, logged := "", [];
    }

    method Write(chunk: string)
      modifies this
      ensures Contents() == AfterWrite(old(Contents()), chunk)
    {
      buf := buf + chunk;
      var eol := if |buf| > MAX_STREAM_BUFFER_LENGTH then |buf| else LastNewline(buf);
      assert buf[..|buf|] == buf;
      if eol != -1 {
        logged := logged + [buf[..eol]];
        buf := if eol < |buf| then buf[eol + 1..] else "";
      }
    }
  }

  // ---------------------------------------------------------------- nothing is lost

  predicate Oversized(piece: string) {
    |piece| > MAX_STREAM_BUFFER_LENGTH
  }

  /** The pieces put together again: a newline follows exactly the pieces that are not too long. */
  function Rebuilt(logged: seq<string>): string {
    if logged == [] then ""
    else
      var last := logged[|logged| - 1];
      Rebuilt(logged[..|logged| - 1]) + if Oversized(last) then last else last + "\n"
  }

  lemma RebuiltAppend(logged: seq<string>, piece: string)
    ensures Rebuilt(logged + [piece]) == Rebuilt(logged) + if Oversized(piece) then piece else piece + "\n"
  {
    assert (logged + [piece])[..|logged|] == logged;
  }

  lemma ConcatSnoc(chunks: seq<string>)
    requires chunks != []
    ensures Concat(chunks) == Concat(chunks[..|chunks| - 1]) + chunks[|chunks| - 1]
  {
    var n := |chunks| - 1;
    assert chunks == chunks[..n] + [chunks[n]];
    ConcatAppend(chunks[..n], [chunks[n]]);
    ConcatOne(chunks[n]);
  }

  /** One write moves text from the buffer to the log and keeps all of it. */
  lemma WriteLosesNothing(log: Log, chunk: string)
    ensures var after := AfterWrite(log, chunk);
            Rebuilt(after.logged) + after.buf == Rebuilt(log.logged) + log.buf + chunk
  {
    var held := log.buf + chunk;
    Associates(Rebuilt(log.logged), log.buf, chunk);
    if |held| > MAX_STREAM_BUFFER_LENGTH {
      RebuiltAppend(log.logged, held);
    } else {
      var eol := LastNewline(held);
      if eol != -1 {
        RebuiltAppend(log.logged, held[..eol]);
        CutAt(held, eol);
        Associates(Rebuilt(log.logged), held[..eol] + "\n", held[eol + 1..]);
      }
    }
  }

  lemma CutAt(s: string, at: nat)
    requires at < |s| && s[at] == '\n'
    ensures s == (s[..at] + "\n") + s[at + 1..]
  {
  }

  /**
   * Over every run of writes, what was written can be read back from the log:
   * each piece is followed by a newline unless it is longer than the limit.
   * What is held back is never longer than the limit and never has a newline.
   */
  lemma {:induction false} LogTellsWhatWasWritten(chunks: seq<string>)
    ensures var log := Run(chunks);
            Rebuilt(log.logged) + log.buf == Concat(chunks)
            && !Oversized(log.buf) && '\n' !in log.buf
  {
    if chunks != [] {
      var before := chunks[..|chunks| - 1];
      LogTellsWhatWasWritten(before);
      ConcatSnoc(chunks);
      WriteLosesNothing(Run(before), chunks[|chunks| - 1]);
    }
  }

  lemma {:induction false} RebuiltEndsALine(logged: seq<string>)
    requires NothingOversized(logged)
    ensures logged != [] ==> Rebuilt(logged) != "" && Rebuilt(logged)[|Rebuilt(logged)| - 1] == '\n'
  {
  }

  /** The text since the last newline. */
  function Tail(s: string): string {
    s[LastNewline(s) + 1..]
  }

  /** No chunk makes the line it continues longer than the limit, complete lines in the chunk included. */
  predicate Fits(chunks: seq<string>) {
    chunks == [] ||
    var n := |chunks| - 1;
    Fits(chunks[..n]) && |Tail(Concat(chunks[..n]))| + |chunks[n]| <= MAX_STREAM_BUFFER_LENGTH
  }

  ghost predicate NothingOversized(logged: seq<string>) {
    forall i :: 0 <= i < |logged| ==> !Oversized(logged[i])
  }

  /** Whether something too long is logged can be told from the chunks alone. */
  lemma {:induction false} NothingOversizedExactlyWhen(chunks: seq<string>)
    ensures NothingOversized(Run(chunks).logged) <==> Fits(chunks)
  {
    if chunks != [] {
      var n := |chunks| - 1;
      var before, log := chunks[..n], Run(chunks[..n]);
      NothingOversizedExactlyWhen(before);
      LoggedGrows(log, chunks[n]);
      if Fits(before) {
        TailIsHeld(before);
      }
    }
  }

  lemma LoggedGrows(log: Log, chunk: string)
    ensures NothingOversized(AfterWrite(log, chunk).logged)
       <==> NothingOversized(log.logged) && |log.buf + chunk| <= MAX_STREAM_BUFFER_LENGTH
  {
    var after := AfterWrite(log, chunk).logged;
    assert forall i :: 0 <= i < |log.logged| ==> after[i] == log.logged[i];
    if |log.buf + chunk| > MAX_STREAM_BUFFER_LENGTH {
      assert Oversized(after[|log.logged|]);
    }
  }

  /** What is held back is what follows the last newline. */
  lemma TailIsHeld(chunks: seq<string>)
    requires NothingOversized(Run(chunks).logged)
    ensures Rebuilt(Run(chunks).logged) + Tail(Concat(chunks)) == Concat(chunks)
    ensures Run(chunks).buf == Tail(Concat(chunks))
  {
    var log := Run(chunks);
    LogTellsWhatWasWritten(chunks);
    RebuiltEndsALine(log.logged);
    HeldIsTail(Rebuilt(log.logged), log.buf, Concat(chunks));
  }

  lemma HeldIsTail(a: string, b: string, text: string)
    requires (a == "" || a[|a| - 1] == '\n') && '\n' !in b && a + b == text
    ensures Tail(text) == b
  {
    LastNewlineIs(a, b);
  }

  lemma LastNewlineIs(a: string, b: string)
    requires a == "" || a[|a| - 1] == '\n'
    requires '\n' !in b
    ensures LastNewline(a + b) == |a| - 1
  {
    var at := LastNewline(a + b);
    assert forall i :: |a| <= i < |a + b| ==> (a + b)[i] == b[i - |a|] && b[i - |a|] in b;
    if a != "" {
      assert (a + b)[|a| - 1] == '\n';
    }
  }

  // ---------------------------------------------------------------- how a text is cut into chunks

  /** The lines of a text, cut at newlines; the last one is what follows the last newline. */
  function Lines(s: string): (lines: seq<string>)
    ensures |lines| >= 1
  {
    if s == "" then [""]
    else if s[0] == '\n' then [""] + Lines(s[1..])
    else
      var rest := Lines(s[1..]);
      [[s[0]] + rest[0]] + rest[1..]
  }

  /** The lines in the logged pieces. */
  function LoggedLines(logged: seq<string>): seq<string> {
    if logged == [] then [] else LoggedLines(logged[..|logged| - 1]) + Lines(logged[|logged| - 1])
  }

  lemma {:induction false} LinesAround(a: string, b: string)
    ensures Lines(a + "\n" + b) == Lines(a) + Lines(b)
  {
    var s := a + "\n" + b;
    if a == "" {
      assert s[0] == '\n' && s[1..] == b;
    } else {
      LinesAround(a[1..], b);
      assert s[0] == a[0] && s[1..] == a[1..] + "\n" + b;
    }
  }

  lemma {:induction false} LineCount(a: string, b: string)
    ensures |Lines(a + b)| == |Lines(a)| + |Lines(b)| - 1
  {
    if a == "" {
      assert a + b == b;
    } else {
      LineCount(a[1..], b);
      assert (a + b)[0] == a[0] && (a + b)[1..] == a[1..] + b;
    }
  }

  lemma {:induction false} OneLine(s: string)
    requires '\n' !in s
    ensures Lines(s) == [s]
  {
    if s != "" {
      OneLine(s[1..]);
      assert [s[0]] + s[1..] == s;
    }
  }

  function OversizedCount(logged: seq<string>): nat {
    if logged == [] then 0
    else OversizedCount(logged[..|logged| - 1]) + if Oversized(logged[|logged| - 1]) then 1 else 0
  }

  lemma {:induction false} CountIsZero(logged: seq<string>)
    ensures OversizedCount(logged) == 0 <==> NothingOversized(logged)
  {
    if logged != [] {
      var n := |logged| - 1;
      CountIsZero(logged[..n]);
      assert forall i :: 0 <= i < n ==> logged[..n][i] == logged[i];
    }
  }

  /** Every piece that was too long stands in the log as if a line had ended there. */
  lemma {:induction false} LinesOfRebuilt(logged: seq<string>, rest: string)
    ensures |LoggedLines(logged)| + |Lines(rest)| == |Lines(Rebuilt(logged) + rest)| + OversizedCount(logged)
    ensures OversizedCount(logged) == 0 ==> LoggedLines(logged) + Lines(rest) == Lines(Rebuilt(logged) + rest)
  {
    if logged == [] {
      assert Rebuilt(logged) + rest == rest;
      assert LoggedLines(logged) + Lines(rest) == Lines(rest);
    } else {
      var front, last := logged[..|logged| - 1], logged[|logged| - 1];
      var ended := if Oversized(last) then last else last + "\n";
      LinesAround(last, rest);
      LineCount(last, rest);
      LinesOfRebuilt(front, ended + rest);
      Associates(Rebuilt(front), ended, rest);
      Associates(LoggedLines(front), Lines(last), Lines(rest));
    }
  }

  /**
   * The lines that are logged, with what is held back, are the lines of the text
   * exactly when no line gets too long.
   */
  lemma LinesAreLoggedExactlyWhen(chunks: seq<string>)
    ensures LoggedLines(Run(chunks).logged) + [Run(chunks).buf] == Lines(Concat(chunks)) <==> Fits(chunks)
  {
    var log := Run(chunks);
    LogTellsWhatWasWritten(chunks);
    OneLine(log.buf);
    LinesOfRebuilt(log.logged, log.buf);
    CountIsZero(log.logged);
    NothingOversizedExactlyWhen(chunks);
  }

  /**
   * Two ways to cut the same text into chunks log the same lines and hold the
   * same text back, as long as no line gets too long in either.
   */
  lemma CuttingKeepsTheLines(a: seq<string>, b: seq<string>)
    requires Fits(a) && Fits(b) && Concat(a) == Concat(b)
    ensures Run(a).buf == Run(b).buf
    ensures LoggedLines(Run(a).logged) == LoggedLines(Run(b).logged)
  {
    LinesAreLoggedExactlyWhen(a);
    LinesAreLoggedExactlyWhen(b);
    LastAndFront(LoggedLines(Run(a).logged), Run(a).buf);
    LastAndFront(LoggedLines(Run(b).logged), Run(b).buf);
  }

  lemma LastAndFront(front: seq<string>, last: string)
    ensures (front + [last])[|front|] == last && (front + [last])[..|front|] == front
  {
  }

  /** The pieces they come in do depend on the cutting. */
  lemma CuttingChangesThePieces()
    ensures var a, b := ["a\nb\n"], ["a\n", "b\n"];
            Concat(a) == Concat(b) && Run(a).logged == ["a\nb"] && Run(b).logged == ["a", "b"]
  {
    var a, b := ["a\nb\n"], ["a\n", "b\n"];
    ConcatOne(a[0]);
    ConcatSnoc(b);
    assert b[..1] == ["a\n"];
    ConcatOne("a\n");
    assert a[..0] == [] && b[..1][..0] == [];
    assert Run(a) == AfterWrite(Log([], ""), "a\nb\n");
    assert Run(b[..1]) == AfterWrite(Log([], ""), "a\n");
    assert Run(b) == AfterWrite(Run(b[..1]), "b\n");
    assert "" + "a\nb\n" == "a\nb\n" && "" + "a\n" == "a\n" && "" + "b\n" == "b\n";
    assert "a\nb\n"[..3] == "a\nb" && "a\n"[..1] == "a" && "b\n"[..1] == "b";
    assert "a\n"[2..] == "" && "a\nb\n"[4..] == "";
  }

  /** Text without a newline is held back up to 1048576 characters, and logged at once beyond that. */
  lemma UnfinishedLineIsHeld(logged: seq<string>, buf: string, chunk: string)
    requires '\n' !in buf && '\n' !in chunk
    ensures AfterWrite(Log(logged, buf), chunk)
         == if |buf| + |chunk| <= 1048576 then Log(logged, buf + chunk) else Log(logged + [buf + chunk], "")
  {
    assert '\n' !in buf + chunk;
  }

  /** Up to there, text before the last newline is logged as one piece, and what follows it is held back. */
  lemma FinishedLineIsLogged(logged: seq<string>, buf: string, chunk: string, rest: string)
    requires |buf| + |chunk| + 1 + |rest| <= 1048576 && '\n' !in rest
    ensures AfterWrite(Log(logged, buf), chunk + "\n" + rest) == Log(logged + [buf + chunk], rest)
  {
    assert buf + (chunk + "\n" + rest) == (buf + chunk) + "\n" + rest;
    CutAtNewline(Log(logged, buf), chunk + "\n" + rest, buf + chunk, rest);
  }

  lemma CutAtNewline(log: Log, chunk: string, line: string, rest: string)
    requires log.buf + chunk == line + "\n" + rest && '\n' !in rest && !Oversized(log.buf + chunk)
    ensures AfterWrite(log, chunk) == Log(log.logged + [line], rest)
  {
    LastNewlineIs(line + "\n", rest);
    assert (line + "\n" + rest)[..|line|] == line && (line + "\n" + rest)[|line| + 1..] == rest;
  }
}
