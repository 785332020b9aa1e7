# Verified models of a coding agent's trickiest parts

The system is an editor extension that lets a language model edit files and run
shell commands. This project models the parts of it whose correctness is least
obvious and proves what they keep, over all inputs and all runs. Every module
follows one source file, or one stage of it.

- `Text` holds the string operations that the other modules share: trimming,
  leftmost literal replacement, splitting into lines, joining. `Characters` writes
  the character classes out, one character after the other.
- `QuoteProtection`, `Collisions`, `Heredocs` and `ParseCommand` decompose a shell
  command for approval checks: quoted line breaks are hidden, and lines are cut into
  chunks that keep heredoc bodies attached.
- `Substitutions`, `Placeholders`, `CaptureOrder`, `LinePasses`, `Reachable`,
  `TokenGrouping`, `LineCommands`, `LostFragments` and `Stages` follow one line: ten
  passes hide what their patterns match behind numbered placeholders, `$( ... )` is
  scanned in balance, tokens are grouped into commands, and eight passes restore each
  command. `LinePasses` has the patterns, `LineCommands` says which lines come out.
- `QuotedText`, `WrittenHeredocs`, `WrittenBodies`, `WrittenLines`, `StayingLines`,
  `ToolSchemas` and `WrittenNames` tell what the code does to its input by how the input
  is written, without the states, patterns and classes of the models above. Most of them
  also show that every input is written in such a way.
- `SafeWrite` is the file writer with lock, temporary file, backup, commit and
  rollback, with a failure possible at every operation. `Writers` lets any number
  of its calls interleave operation by operation under one lock.
- `JsonSchema` normalises tool-input schemas and relates the result to what the
  schemas accept (JSON Schema draft 2020-12, section 10 of the Core document and
  section 6 of the Validation document).
- `McpName` encodes tool names so that they survive a model's habit of writing
  underscores for hyphens, and `Entities` decodes HTML entities by ordered passes.
- `TestCaseFiles` parses autocompletion test cases, `GitWatcher` reports changes
  of a repository's state, `Registration` registers commands all or nothing,
  `Translations` looks for missing translations, and `StreamLog` logs a stream by
  complete lines.

Code that computes by expressions is a function. Code that updates state is a
method or a class, tied by its contract to a function of its input or its old
state; the laws are then proved about that function.

## What turned out differently from the intent

These are results about the code as it is. Each has a lemma.

- Restoring hidden line breaks is not the identity on every command. It fails
  exactly on commands holding text that, next to inserted placeholders, reads as
  one; the whole placeholder need not occur (`QuoteProtection.OverlapBreaksRoundTrip`).
- The fixed order of restoring passes does not restore everything: `x=$(a $h)` comes
  out as `x=$(a __VAR_0__)`, `${x:-$((1))}` as `${x:-__ARITH_0__}`, and `$$((1))` as
  `$__ARITH_0__` (`LostFragments.VariableInSubstitutionIsLost`,
  `LostFragments.ArithmeticInParameterIsLost`, `LostFragments.ArithmeticInVariableIsLost`).
  A substitution that is a word of its own does no harm, since its body becomes a command:
  `echo $(a $h)` comes out as `echo` and `a $h`
  (`LostFragments.VariableInsideAloneComesOut`). The exact condition, for every line and
  every tokenizer that keeps the placeholders, is that each stored fragment is fit for its
  kind, bodies that are words of their own excepted: no arithmetic or parameter expansion
  holds an arithmetic one, no variable holds an arithmetic or parameter expansion or a
  variable, and no other body holds anything but redirections
  (`LineCommands.LineComesOutExactlyWhen`).
- A word such as `__SUBSH_9__` in the user's own command names a body that was
  never stored, and parsing then throws (`TokenGrouping.UnknownBodyThrows`).
- Normalising a schema can loosen it, since it drops what a schema without a type says
  of arrays and of further members, required keys that are not declared, and an `anyOf`
  beside an array of types, and since tightened `oneOf` variants overlap less. For each
  of these there is an exact condition (`JsonSchema.TightensExactlyWhenRequiredIsDeclared`
  and the lemmas after it). On schemas that close their objects themselves, or whose
  variants exclude each other, a `oneOf` does no harm
  (`JsonSchema.NormalizingIsExactOnClosed`, `JsonSchema.ExclusiveVariantsTighten`).
- The comment in the source promises that no composition remains at the top of a
  tool schema. A composition inside the chosen variant comes to the top
  (`JsonSchema.NestedCompositionSurfaces`).
- Normalising twice differs from normalising once exactly when an array of types
  that includes "object" is met (`JsonSchema.IdempotentExactlyOnRegular`).
- Mangled tool names come back for some names only: not if a name has two underscores
  together, an underscore before a hyphen, two hyphens together, or does not begin with
  a letter, and not if the server name ends in an underscore. A name that is cut at the
  limit comes back in one case only, one character over the limit, when the tool's name
  ends in two hyphens (`McpName.MangledNamesAreRecovered`).
- A listener that throws breaks the chain of git events: the new state is not recorded,
  and the next event starts from the old one. The emitted events form a chain exactly
  when no event follows on a thrown one that announced another branch
  (`GitWatcher.EmittedEventsFormAChainExactlyWhen`,
  `GitWatcher.ThrowingListenerBreaksTheChain`), and an event is repeated exactly when
  its listener threw and the same branch (and for a commit event the same commit) was
  read again
  (`GitWatcher.EventsRepeatExactlyWhen`).
- A stream's lines do not depend on how its text was cut into chunks, but the logged
  pieces do (`StreamLog.CuttingChangesThePieces`).
- A missing translation can go unnoticed, since a text has members of its own, and
  a key with a dot is reported even by the file that defines it
  (`Translations.InheritedMemberHidesMissingKey`, `Translations.DottedKeyIsReportedAnyway`).

## Model

| member | source | states |
|---|---|---|
| QuoteProtection.ProtectNewlinesInQuotes | src/shared/quote-protection.ts:28-103 | The nested scanning loops write every character as it is, except that a line break reached in a quoted state becomes its placeholder; the quote state is a function of the prefix. |
| QuoteProtection.RestoreUndoesProtect | src/shared/quote-protection.ts:113-121 | Restoring gives the command back if and only if no raw text, together with neighbouring placeholders, reads as a placeholder. |
| QuoteProtection.RestoreUndoesProtectWithoutWords | src/shared/quote-protection.ts:28-121 | The round trip holds for every command without the words NEWLINE and CARRIAGE_RETURN. |
| QuoteProtection.OverlapBreaksRoundTrip | src/shared/quote-protection.ts:28-121 | A command without the whole placeholder for which the round trip fails. |
| QuoteProtection.ProtectKeepsUnquotedBreaks | src/shared/quote-protection.ts:28-103 | The lines of the protected command are the command's own lines cut at the breaks outside quotes and at no others. |
| QuotedText.QuotedBreaksAreHidden | src/shared/quote-protection.ts:28-103 | A command written as text without quotes, double-quoted bodies in which every inner double quote follows a backslash, and single-quoted bodies, the last one possibly unclosed, becomes the same text with each line break of a body as its placeholder word and nothing else changed. |
| QuotedText.EveryCommandIsWritten | src/shared/quote-protection.ts:28-103 | Every command is written so. |
| Heredocs.ExtractHeredocDelimiters | src/shared/parse-command.ts:111-125 | The matching loop returns the delimiters of the line's heredoc operators, leftmost first, with quotes removed and the tab-stripping flag. |
| Heredocs.DelimitersOfOpeningLine | src/shared/parse-command.ts:111-125 | Reading undoes writing: a line made of plain texts and quoted heredoc operators yields exactly their delimiters in order. |
| Heredocs.SplitCommandPreservingHeredocs | src/shared/parse-command.ts:67-105 | The loop with its queue of pending delimiters produces the chunks of the recursive definition. |
| Heredocs.ChunksCharacterised | src/shared/parse-command.ts:67-105 | A list of chunks is the result if and only if it partitions the lines in order and each chunk is an opening line with a body that ends exactly where its delimiters are met first in first out, or is the last and unterminated. |
| Heredocs.ChunksJoin | src/shared/parse-command.ts:67-105 | Joined by newlines, the chunks are the command with its line breaks normalised. |
| Heredocs.SplitterAndClassifierAgree | src/shared/parse-command.ts:67-109 | A chunk is classified as a heredoc exactly when its first line opens one; every other chunk is a single line. |
| WrittenHeredocs.WrittenDelimitersAreRead | src/shared/parse-command.ts:111-125 | A line of texts and operators, each with or without a dash, with any blanks and a marker that is quoted, double-quoted, bare or behind a backslash, has exactly the written markers and dashes as delimiters. |
| WrittenHeredocs.ClosesExactlyWhen | src/shared/parse-command.ts:74-81 | A line closes a delimiter if and only if it is the marker, or, with a dash, the marker behind any number of tabs (and a marker that itself begins with a tab is then never met). |
| WrittenHeredocs.WrittenHeredocIsOneChunk | src/shared/parse-command.ts:67-105 | Such a line with the bodies of its operators in order, each ended by a line that closes it, is one chunk, and the lines after it are split on their own. |
| ParseCommand.ParseCommand | src/shared/parse-command.ts:25-64 | The whole decomposition: blank commands give nothing, heredoc chunks come out trimmed, other chunks go to the line parser whose error ends the call, and every command is restored. The line parser need only be defined on single lines that are not blank. |
| ParseCommand.OnlySingleLinesAreParsed | src/shared/parse-command.ts:38-56 | No heredoc body and no text of several lines ever reaches the line parser. |
| ParseCommand.HeredocsComeOutVerbatim | src/shared/parse-command.ts:25-64 | In terms of the command's own lines: the result is nothing for a blank line, the command's own text for a heredoc with its body, and the parsed line otherwise, in order, if and only if no heredoc holds text that reads as a placeholder (or the line parser throws). |
| ParseCommand.HeredocsComeOutVerbatimWithoutCollisions | src/shared/parse-command.ts:25-64 | That holds whenever nothing in the whole command reads as a placeholder. |
| Collisions.RunsDoNotCollide | src/shared/parse-command.ts:36-62 | Placeholders are never misread across an unquoted line break: if the whole command is safe to restore, so is each of its lines. |
| Substitutions.FindCommandSubstitutionEnd | src/shared/parse-command.ts:326-373 | The result is the first unquoted, unescaped closing parenthesis at which closings balance openings, and -1 when there is none. |
| Substitutions.EndIsUnique | src/shared/parse-command.ts:326-373 | There is at most one such parenthesis. |
| WrittenBodies.WrittenBodyEnds | src/shared/parse-command.ts:326-373 | Of a body written as plain text, escaped characters, text in any of the three quotes in which backslashes pair with the next character, and further substitutions, the scan ends at the closing parenthesis behind it, whatever follows. |
| WrittenBodies.BrokenBodyNeverEnds | src/shared/parse-command.ts:326-373 | A body that is followed by nothing, by a lone backslash, by a quote that is not closed or by a substitution that is not closed never ends. |
| WrittenBodies.EveryTextIsWritten | src/shared/parse-command.ts:326-373 | Every text is a written body with its closing parenthesis and a rest, or such a body that never ends. |
| Substitutions.SubshellStore.Push | src/shared/parse-command.ts:299-324 | A body is stored last and its id is the number of bodies before it. |
| Substitutions.ProtectCommandSubstitutions | src/shared/parse-command.ts:299-324 | The command becomes its plain characters and references numbered consecutively from the store's size, and the store grows by the trimmed bodies in order. |
| Substitutions.ProtectionIsLossless | src/shared/parse-command.ts:299-324 | Expanding the references gives the original command, up to trimmed bodies. |
| Substitutions.WhatStaysIsUnclosed | src/shared/parse-command.ts:299-373 | Every `$(` left in the text is one that is never closed. |
| Placeholders.RestorePlaceholders | src/shared/parse-command.ts:379-407 | The eight passes in their fixed order. |
| Placeholders.PassesExpandCompletely | src/shared/parse-command.ts:379-407 | The passes leave no placeholder and give the complete recursive expansion if and only if every reference meets its own pass and what replaces it needs only later passes. |
| Placeholders.ExpansionIsUnique | src/shared/parse-command.ts:379-407 | A text has at most one complete expansion. |
| Placeholders.OrderedStoresRestoreEverything | src/shared/parse-command.ts:379-407 | If every stored fragment refers only to kinds restored later than its own, every command is restored completely. |
| Placeholders.ParameterHoldingArithmeticLeaks | src/shared/parse-command.ts:379-407 | Whatever the store and however it came about: a parameter expansion holding anything restored no later than itself is not expanded completely. |
| Placeholders.SubshellHoldingVariableLeaks | src/shared/parse-command.ts:379-407 | Whatever the store and however it came about: a stored body holding anything but a redirection is not expanded completely. |
| Placeholders.MissingFragmentReadsUndefined | src/shared/parse-command.ts:379-407 | A placeholder whose number was never stored comes out as `undefined`, for a body as `$(undefined)`. |
| Placeholders.CaptureKeepsExpansion | src/shared/parse-command.ts:158-218 | A capturing pass changes the text but not what it expands to, whatever spans it matches. |
| Placeholders.CaptureThenRestore | src/shared/parse-command.ts:158-407 | After any sequence of capturing passes that store their matches unchanged, restoring gives the command back if and only if the remaining references are restorable. |
| Placeholders.WordsComeFromTheLine | src/shared/parse-command.ts:223-246 | However the captured line is cut into pieces with bodies left in place, as when the tokenizer throws, restoring them one by one reproduces the line as it was written, each piece at its own place, if and only if all references are restorable. |
| CaptureOrder.RestorableExactlyWhenOrdered | src/shared/parse-command.ts:155-407 | After any run of capturing passes that keep the references of what they match, the text that is left can be restored if and only if every stored fragment refers only to kinds restored after its own. |
| CaptureOrder.RunIsLimited | src/shared/parse-command.ts:155-218 | A fragment holds placeholders of earlier passes only, in the source's order of passes. |
| CaptureOrder.SourceOrderExpandsExactlyWhen | src/shared/parse-command.ts:155-246 | For the undivided line and ten passes in the source's order, whatever they match: restoring leaves no placeholder and gives the complete expansion if and only if no arithmetic or parameter expansion holds an arithmetic one, no variable holds an arithmetic or parameter expansion or a variable, and no substitution's body holds anything but redirections. |
| CaptureOrder.SourceOrderRestoresExactlyWhen | src/shared/parse-command.ts:155-246 | If each fragment is written back as it was matched, the undivided line comes back if and only if the fragments nest so. |
| LinePasses.MatchIsLongest | src/shared/parse-command.ts:158-218 | Each of the ten passes matches at a place the longest stretch of its kind (redirection, `$((`...`))`, `$[`...`]`, `${`...`}`, `<(`...`)`, name, special variable, balanced `$(`...`)`, back-ticks, double quotes) that begins there, and nothing if there is none. |
| LinePasses.ScanExactlyWhen | src/shared/parse-command.ts:158-218 | A pass cuts a text in one way only: into longest matches, each beginning where the segment before it ends, and symbols at which nothing of its kind begins; it stores the match, or the trimmed body of a substitution. |
| LinePasses.ReplaceMatches | src/shared/parse-command.ts:158-218 | The left-to-right loop leaves the text with consecutively numbered placeholders and returns what is stored, in order. |
| LinePasses.CaptureLine | src/shared/parse-command.ts:155-218 | The ten replacements in the source's order give the captured line and its store. |
| LinePasses.LineIsRun | src/shared/parse-command.ts:155-218 | What the patterns match makes a run of passes in the source's order that keeps all references, so what is proved of such runs holds of every line. |
| WrittenLines.RedirectionIsHidden | src/shared/parse-command.ts:155-162 | Digits, one of the four operators and a target up to the first blank, semicolon, ampersand, bar or parenthesis become one redirection placeholder, and exactly that text is stored; what is around it stays. |
| WrittenLines.ArithmeticIsHidden | src/shared/parse-command.ts:164-169 | `$((` is hidden up to the last `))` of the line. |
| WrittenLines.BracketsAreHidden | src/shared/parse-command.ts:171-175 | `$[` is hidden up to the first closing bracket. |
| WrittenLines.BracesAreHidden | src/shared/parse-command.ts:177-182 | `${` with something in it is hidden up to the first closing brace. |
| WrittenLines.ProcessSubstitutionIsHidden | src/shared/parse-command.ts:184-188 | `<(` and `>(` with something in them are hidden up to the first closing parenthesis, and the body is stored without the blanks around it. |
| WrittenLines.VariableIsHidden | src/shared/parse-command.ts:190-195 | A dollar sign and a name of letters of both cases, digits and underscores, not led by a digit, are hidden up to the end of the name. |
| WrittenLines.SpecialVariableIsHidden | src/shared/parse-command.ts:197-201 | A dollar sign and any one of `?`, `!`, `#`, `@`, `*`, `-` and the digits are hidden. |
| WrittenLines.ProcessIdIsHidden | src/shared/parse-command.ts:197-201 | Two dollar signs are hidden when the second one begins nothing else. |
| WrittenLines.SubstitutionIsHidden | src/shared/parse-command.ts:203-207 | `$(` with a body is hidden, and the body is stored without the blanks around it. |
| WrittenLines.BacktickIsHidden | src/shared/parse-command.ts:207-210 | Back-ticks on one line are hidden with what is between them, which is stored without the blanks around it. |
| WrittenLines.QuotedIsHidden | src/shared/parse-command.ts:213-218 | A double quote is hidden up to the next one. |
| StayingLines.LoneDollarStays | src/shared/parse-command.ts:164-207 | A dollar sign followed by none of these stays in the line, and nothing is stored. |
| StayingLines.UnclosedStays | src/shared/parse-command.ts:164-218 | So does an opening of any kind that is not closed. |
| StayingLines.EmptyStays | src/shared/parse-command.ts:177-188 | So do `${}`, `<()` and `>()`. |
| StayingLines.LoneAngleStays | src/shared/parse-command.ts:158-188 | So does an angle bracket without a digit before it and a parenthesis behind it. |
| StayingLines.BackticksAcrossLinesStay | src/shared/parse-command.ts:207-210 | So do back-ticks with a line terminator between them. |
| Reachable.RestorableExactlyWhenReachedFit | src/shared/parse-command.ts:379-407 | A text is restored completely if and only if every fragment that it reaches through placeholders is fit for its kind. |
| Reachable.RunIsReached | src/shared/parse-command.ts:158-218 | After a run every stored fragment is reached from the text that is left. |
| Reachable.RunKeepsOnePlace | src/shared/parse-command.ts:158-218 | After a run a placeholder in the text stands there once and in no stored fragment. |
| LineCommands.CommandsComeOutExactlyWhen | src/shared/parse-command.ts:248-297 | Whatever the tokens and the store: all commands come out as complete expansions if and only if every other word, and every stored body that is a word of its own, can be restored from the first pass on. |
| LineCommands.PlainWordsAreJoined | src/shared/parse-command.ts:255-283 | Of words without placeholders the command read as symbols is the one that the grouping makes. |
| LineCommands.LineComesOutExactlyWhenReachedFit | src/shared/parse-command.ts:155-297 | For every line and tokenizer: all commands come out if and only if every fragment is fit for its kind that a word, or a body that is a word, reaches. |
| LineCommands.LineComesOutExactlyWhen | src/shared/parse-command.ts:155-297 | For every line, and every tokenizer that keeps the line's placeholders in order: all commands come out if and only if every stored fragment, except bodies that are words of their own, is fit for its kind. |
| LineCommands.CommandsComeFromTheLine | src/shared/parse-command.ts:155-297 | The words and bodies as they come out, each in its place in the line, make up the line's complete expansion if and only if all of them come out. |
| LineCommands.CommandsAreTheLine | src/shared/parse-command.ts:155-297 | If each match is restored as it was written, what they make up is the line itself, if and only if all come out. |
| LineCommands.PiecesComeOutExactlyWhen | src/shared/parse-command.ts:223-246 | When the tokenizer throws and the line is cut at its operators, the pieces come out if and only if all stored fragments are fit for their kinds. |
| LostFragments.LineWithoutPatternsStays | src/shared/parse-command.ts:155-218 | A line without dollar sign, angle bracket, back-tick and double quote goes through the ten passes unchanged, and nothing is stored. |
| LostFragments.VariableInsideComesOutExactlyWhen | src/shared/parse-command.ts:190-297 | For plain texts around a variable inside a substitution: its commands come out if and only if the substitution is a word of its own. |
| LostFragments.VariableInsideAloneComesOut | src/shared/parse-command.ts:190-297 | Then the body is a command that is restored as it was written. |
| LostFragments.ArithmeticInsideIsLost | src/shared/parse-command.ts:163-297 | For plain texts around an arithmetic expansion inside a parameter expansion: not all commands come out, whatever the tokenizer does. |
| LostFragments.DollarBeforeIsLost | src/shared/parse-command.ts:163-297 | The same for an arithmetic expansion right after a dollar sign, where the placeholder itself is read as a variable's name. |
| LostFragments.VariableInSubstitutionIsLost | src/shared/parse-command.ts:190-211 | The passes leave `x=` with one placeholder of `x=$(a $h)`, and restore `x=$(a ` and the variable's placeholder and `)`. |
| LostFragments.ArithmeticInParameterIsLost | src/shared/parse-command.ts:163-182 | The passes leave one placeholder of `${x:-$((1))}`, and restore `${x:-` and the arithmetic placeholder and `}`. |
| LostFragments.ArithmeticInVariableIsLost | src/shared/parse-command.ts:163-195 | The passes leave one placeholder of `$$((1))`, and restore a dollar sign and the arithmetic placeholder. |
| Stages.ScanningIsAPass | src/shared/parse-command.ts:202-210 | On plain text the scanner that hides command substitutions is a capturing pass: its input is the command, its output and the stored bodies are the pass's. |
| Stages.PassSevenIsScanning | src/shared/parse-command.ts:202-210 | On any text, also one that holds placeholders, the pass for substitutions takes and stores exactly the parts that the scanner finds. |
| Stages.PlaceholderStandsAlone | src/shared/parse-command.ts:262-272 | A word that is one such placeholder becomes a command of its own, with the stored body as its text. |
| TokenGrouping.GroupTokens | src/shared/parse-command.ts:248-281 | The loop produces the commands of the groups of the token list. |
| TokenGrouping.PlaceholderIsRead | src/shared/parse-command.ts:264-272 | The word inserted for a stored body is read back as that body's id. |
| TokenGrouping.OneRun | src/shared/parse-command.ts:248-281 | Tokens without a separator make one command of all their words, or none. |
| TokenGrouping.SplitsAtSeparator | src/shared/parse-command.ts:248-281 | A chain operator or a body splits the grouping in two; a body is also a command of its own. |
| TokenGrouping.LawsDetermineGroups | src/shared/parse-command.ts:248-281 | Those two laws hold of no other grouping. |
| TokenGrouping.ChainOperatorSplits | src/shared/parse-command.ts:251-258 | Each of the five chain operators (`&&`, the double bar, `;`, the bar and `&`) ends a command and leaves nothing behind. |
| TokenGrouping.PlaceholderSplits | src/shared/parse-command.ts:264-272 | A word that is a substitution placeholder ends a command and is one of its own. |
| TokenGrouping.OthersAreWords | src/shared/parse-command.ts:259-275 | Words that do not begin like a placeholder, and all other operators, are the words of one command, in order. |
| TokenGrouping.WordsHaveABlankBetween | src/shared/parse-command.ts:255-281 | The words of a command have one blank between them. |
| TokenGrouping.OtherTokenIsDropped | src/shared/parse-command.ts:252-277 | A token that is neither, such as a comment, changes nothing. |
| TokenGrouping.GroupingIsLossless | src/shared/parse-command.ts:248-281 | Every word, redirection operator and body appears once, in order, and no run is empty. |
| TokenGrouping.UnknownBodyThrows | src/shared/parse-command.ts:264-297 | A command without text, on which restoring throws, arises exactly when a word names a body that was never stored. |
| SafeWrite.Disk.Rename | src/utils/safeWriteJson.ts:126-138 | Moves a file, replacing the target, or changes nothing. |
| SafeWrite.Disk.Unlink | src/utils/safeWriteJson.ts:145-203 | Removes a file or changes nothing. |
| SafeWrite.Disk.SafeWriteJson | src/utils/safeWriteJson.ts:35-216 | The whole call leaves the directory, and throws, as the step protocol says; what is thrown is the first error that is not passed over, never one of rollback or cleanup; the lock stays taken exactly when its release failed. |
| SafeWrite.Disk.StageAndBackUp | src/utils/safeWriteJson.ts:108-134 | Temporary file and backup: the recorded backup path and the error agree with the protocol state, and a vanished target is passed over. |
| SafeWrite.Disk.RollBack | src/utils/safeWriteJson.ts:160-204 | The catch block performs the protocol's rollback and cleanup operations. |
| SafeWrite.CallOutcome | src/utils/safeWriteJson.ts:65-216 | For every combination of failures, the resulting directory and whether the call throws, in closed form. |
| SafeWrite.AllOrNothing | src/utils/safeWriteJson.ts:108-204 | With at most one failure the call returns with the new data in place and at most an orphan backup, or throws with the directory exactly as before. |
| SafeWrite.OldContentIsLostExactlyWhen | src/utils/safeWriteJson.ts:160-204 | For any number of failures, a throwing call destroys the old content exactly when the backup was made, commit and rollback both failed, and the backup was then removed. |
| SafeWrite.OnlyOwnNamesChange | src/utils/safeWriteJson.ts:104-204 | Whatever fails, no other file changes, and a returning call has its data under the target and no temporary file. |
| Writers.SessionStep | src/utils/safeWriteJson.ts:108-215 | Each operation of a session under the lock leads to the directory expected at the next point. |
| Writers.EveryEventKeepsTheInvariant | src/utils/safeWriteJson.ts:47-216 | Every operation of every interleaved call keeps the system invariant. |
| Writers.RunsKeepTheInvariant | src/utils/safeWriteJson.ts:47-216 | The invariant holds in every state of every run. |
| Writers.AtMostOneHolds | src/utils/safeWriteJson.ts:78-102 | At most one call is between taking and releasing the lock. |
| Writers.ReturnsExactlyWhenCommitted | src/utils/safeWriteJson.ts:47-62 | A finished call returned normally exactly when it committed, and with a snapshot it wrote the serialisation made when it was called, however the object is mutated meanwhile. |
| Writers.FreeLockMeansSettled | src/utils/safeWriteJson.ts:108-215 | Whenever no call is in a session, the target holds the data of the last call that committed, or its first content; other files are unchanged up to backups of committed calls. |
| JsonSchema.ApplyArrayProperties | src/utils/json-schema.ts:36-46 | Copies the array keywords that are defined onto a node without any. |
| JsonSchema.Transform | src/utils/json-schema.ts:157-230 | The step-by-step filling of the result node gives the transform of that node. |
| JsonSchema.NormalFormsAreStrict | src/utils/json-schema.ts:126-231 | A schema is its own normal form if and only if it is strict at every node: no array of types, supported formats, required a non-empty part of the declared keys, closed objects and nothing else closed, array keywords beside type array only. |
| JsonSchema.OutputIsStrict | src/utils/json-schema.ts:126-231 | Every output is strict up to bare object variants made from arrays of types, and strict without exception exactly when no kept node has an array of types including "object". |
| JsonSchema.IdempotentExactlyOnRegular | src/utils/json-schema.ts:126-231 | Normalising again changes nothing if and only if no kept node has an array of types including "object". |
| JsonSchema.NormalizingOnlyTightens | src/utils/json-schema.ts:157-230 | On the stated fragment every value the normalised schema accepts is accepted by the original. |
| JsonSchema.NormalizingIsExactOnClosed | src/utils/json-schema.ts:157-230 | On schemas that close their objects themselves both accept the same values, `oneOf` included. |
| JsonSchema.TightensExactlyWhenRequiredIsDeclared | src/utils/json-schema.ts:202-216 | On an otherwise sound object node whose normal form some object meets, normalising tightens if and only if every required key is declared. |
| JsonSchema.TightensExactlyWhenMembersMeetAdditional | src/utils/json-schema.ts:218-227 | An otherwise sound schema without type and properties tightens if and only if every object its normal form accepts meets what it says of further members. |
| JsonSchema.TightensExactlyWhenAdditionalSaysNothing | src/utils/json-schema.ts:218-227 | Without enumeration, constant and variants: if and only if it bans no further member, by a schema neither. |
| JsonSchema.TightensExactlyWhenArraysMeetKeywords | src/utils/json-schema.ts:179-194 | An otherwise sound schema without a type tightens if and only if every array its normal form accepts meets its array keywords. |
| JsonSchema.TightensExactlyWhenArrayKeywordsSayNothing | src/utils/json-schema.ts:179-194 | Without enumeration, constant and variants: if and only if minItems is absent or 0, maxItems is absent, uniqueItems is not true and the item schemas accept everything. |
| JsonSchema.TightensExactlyWhenAnyOfIsMet | src/utils/json-schema.ts:181-187 | An otherwise sound schema with an array of types tightens if and only if every value its normal form accepts meets the overwritten `anyOf`. |
| JsonSchema.TypesBesideAnyOfTightenExactlyWhen | src/utils/json-schema.ts:181-187 | When types and `anyOf` are all there is: if and only if every value of one of the types (of the objects, the empty one) meets a variant. |
| JsonSchema.TightensExactlyWhenOneOfStaysExclusive | src/utils/json-schema.ts:157-230 | An otherwise sound schema tightens if and only if no value its normal form accepts meets two of the original `oneOf` variants. |
| JsonSchema.ExclusiveVariantsTighten | src/utils/json-schema.ts:157-230 | Variants that exclude each other therefore tighten. |
| JsonSchema.UntypedArrayKeywordsLoosen | src/utils/json-schema.ts:179-194 | For instance, a bare lower bound on the length of an array is dropped. |
| JsonSchema.AnyOfBesideTypesLoosens | src/utils/json-schema.ts:181-187 | For instance, one variant beside one type is overwritten. |
| JsonSchema.OneOfLoosens | src/utils/json-schema.ts:157-230 | Tightening one of two matching `oneOf` variants accepts a value that was rejected. |
| JsonSchema.TopLevelCompositionIsGoneExactlyWhen | src/utils/json-schema.ts:241-304 | The result has no composition at the top if and only if there was none and no array of types, or a non-empty one whose chosen object variant, if any, has neither, and no array of types beside it that the variant's type does not replace. |
| JsonSchema.NestedCompositionSurfaces | src/utils/json-schema.ts:241-276 | A composition inside the chosen variant comes to the top. |
| JsonSchema.ToolSchemasAreStrict | src/utils/json-schema.ts:294-304 | The whole normaliser's output is strict, with the same exception and the same exact condition. |
| ToolSchemas.FirstObjectLiesOver | src/utils/json-schema.ts:241-266 | Of anyOf, or else oneOf, or else allOf, the first variant with type object or properties lies over the schema: every keyword that it defines is the result's, every other one is the schema's own, and the compositions are the variant's only. |
| ToolSchemas.WithoutObjectTheSchemaLiesOver | src/utils/json-schema.ts:255-275 | Without such a variant the schema's own keywords lie over a closed object type, and no composition is left. |
| ToolSchemas.OthersStay | src/utils/json-schema.ts:244-253 | A schema without composition, or with an empty one, is not changed. |
| ToolSchemas.ToolTakesTheVariantsProperties | src/utils/json-schema.ts:241-304 | A tool takes the properties of that variant, each normalised, and no others. |
| ToolSchemas.FormatIsKeptExactlyWhen | src/utils/json-schema.ts:196-200 | A format is kept if and only if it is one of the nine that are written out. |
| ToolSchemas.UndeclaredKeyIsDropped | src/utils/json-schema.ts:202-211 | A required key that is not declared is dropped from its place in the list. |
| ToolSchemas.DeclaredKeysStay | src/utils/json-schema.ts:202-211 | A list of declared keys is kept as it is. |
| ToolSchemas.TypesBecomeVariants | src/utils/json-schema.ts:176-187 | An array of types becomes as many variants in order, the one for arrays with the array keywords. |
| McpName.SanitizedIsIdentifier | src/utils/mcp-name.ts:85-115 | Every sanitised name is non-empty, has only allowed characters and no hyphen, and begins with a letter or underscore. |
| WrittenNames.WrittenNameIsSanitized | src/utils/mcp-name.ts:85-115 | Letters, digits and underscores stay, blanks in a row become one underscore, hyphens in a row (dropped characters among them) three, and the rest is dropped; a digit in front gets an underscore before it, and a name of which nothing is left is `_unnamed`. |
| WrittenNames.EveryNameIsWritten | src/utils/mcp-name.ts:85-115 | Every name is written in such pieces. |
| McpName.BuiltIsShort | src/utils/mcp-name.ts:127-140 | A built name is a prefix of the full name within the length limit. |
| WrittenNames.OthersAreNotNormalized | src/utils/mcp-name.ts:43-63 | Only names that begin with the mangled prefix are changed by normalising. |
| WrittenNames.BuiltNameIsWritten | src/utils/mcp-name.ts:127-141 | A built name is `mcp`, the server and the tool with two hyphens between, as far as 64 characters go. |
| McpName.DecodeUndoesSanitize | src/utils/mcp-name.ts:85-151 | Decoding undoes sanitising if and only if the name has only allowed characters, is not led by a digit, and has no `--`, `_-` or `___`. |
| McpName.NormalizeIsOnePass | src/utils/mcp-name.ts:43-64 | The three replacements through a placeholder are one left-to-right pass, which keeps triple underscores and turns double ones into hyphens, if and only if the text has nothing that reads as the placeholder, by itself or with three underscores after it. |
| McpName.MangledNamesAreRecovered | src/utils/mcp-name.ts:43-188 | For all names: after building, replacing hyphens by underscores, normalising and parsing, both names come back if and only if both begin with a letter, have only allowed characters and no `--`, `_-` or `__`, the server name does not end in an underscore, and the full name is within the limit; or the full name is one character over the limit, the tool's name ends in `--` behind a letter or digit, and the rest of the names is so. |
| McpName.BuildIsInjective | src/utils/mcp-name.ts:127-140 | Two different pairs of such names are never built into the same name. |
| Entities.PassesAreOnePass | src/utils/text-normalization.ts:85-99 | The ten ordered replacements decode each entity of the text once, left to right. |
| Entities.DecodingUndoesEncoding | src/utils/text-normalization.ts:85-99 | However a text is encoded with the table's entities, decoding gives it back. |
| Entities.EntityIsDecoded | src/utils/text-normalization.ts:85-99 | Each of the ten entities, written out, becomes its character wherever it stands, and nothing around it changes. |
| Entities.Encoding | src/utils/text-normalization.ts:85-99 | Every text has such an encoding. |
| TestCaseFiles.MatchHeader | src/test-llm-autocompletion/test-cases.ts:35-50 | A line is matched against the header pattern exactly when it is classified as a header, with its name lower-cased and its value trimmed. |
| TestCaseFiles.WrittenHeaderIsRead | src/test-llm-autocompletion/test-cases.ts:34-53 | A line of the mark `#### `, a name without a colon, a colon and a value between blanks is read as that name and value. |
| TestCaseFiles.EveryHeaderIsWritten | src/test-llm-autocompletion/test-cases.ts:34-53 | Every line that is read as a header is written so. |
| TestCaseFiles.ParseHeaders | src/test-llm-autocompletion/test-cases.ts:37-68 | Reads the maximal run of header lines, later ones overriding earlier ones, and reports the required headers that are missing or empty. |
| TestCaseFiles.ReadUntilHeaders | src/test-llm-autocompletion/test-cases.ts:74-86 | Reads the maximal run of content lines and stops at the next header. |
| TestCaseFiles.ParseTestCaseFile | src/test-llm-autocompletion/test-cases.ts:88-135 | The parser gives the test case, or the missing headers, of the recursive definition on classified lines. |
| TestCaseFiles.ParseContextFiles | src/test-llm-autocompletion/test-cases.ts:109-127 | The loop ends on every file, since each round starts on a header, and gives the context files of the recursive definition. |
| TestCaseFiles.EveryContentLineHasItsBlock | src/test-llm-autocompletion/test-cases.ts:88-135 | Every line that is not a header lies in exactly one content block of the result, in order. |
| TestCaseFiles.ParseUndoesPrint | src/test-llm-autocompletion/test-cases.ts:88-135 | Parsing a printed test case gives that case back if and only if its values are trimmed, non-empty and on one line and its contents have no carriage return and no line that reads as a header. |
| TestCaseFiles.ParsedIsPrintable | src/test-llm-autocompletion/test-cases.ts:37-135 | Whatever the file, a test case parsed from it is of that kind. |
| GitWatcher.Watcher.HandleGitChange | src/shared/GitWatcher.ts:304-310 | A trigger starts a handler unless the guard is set. |
| GitWatcher.Watcher.Finish | src/shared/GitWatcher.ts:312-378 | Once its queries are answered the handler updates the state and releases the guard, whatever happened. |
| GitWatcher.Watcher.Process | src/shared/GitWatcher.ts:312-373 | The event that is emitted, if any, and the recorded state and default branch after it. |
| GitWatcher.Watcher.GetDefaultBranch | src/shared/GitWatcher.ts:384-397 | The remembered branch, else the override, else the queried one; what is found is remembered. |
| GitWatcher.AtMostOneHandler | src/shared/GitWatcher.ts:304-310 | Over every run at most one handler is in flight, exactly while the guard is set. |
| GitWatcher.RecordedEventsFormAChain | src/shared/GitWatcher.ts:312-373 | Over every run each event after which the new state was recorded follows on the branch recorded before it, and folding these events between detachments reproduces the recorded branch. |
| GitWatcher.ViewIsEmitted | src/shared/GitWatcher.ts:340-369 | The view of the listeners, events with detachment marks, holds all emitted events in order. |
| GitWatcher.EveryEventIsRecordedOrThrown | src/shared/GitWatcher.ts:340-378 | Over every run the emitted events are counted by the recorded ones and those on which a listener threw; without throws the record is the view. |
| GitWatcher.RecordedAreEmittedExactlyWhen | src/shared/GitWatcher.ts:340-378 | Over every run the recorded events are all the emitted ones if and only if no listener threw on one. |
| GitWatcher.EmittedEventsFormAChainExactlyWhen | src/shared/GitWatcher.ts:312-378 | Over every run the emitted events form a chain if and only if no event follows, without a detachment between, on a thrown one that announced an unrecorded branch, unless no state is recorded and it announces that branch again. |
| GitWatcher.EventsFormAChain | src/shared/GitWatcher.ts:312-373 | Over every run in which no listener throws, the emitted events form a chain, and folding them between detachments reproduces the recorded branch. |
| GitWatcher.ThrowingListenerBreaksTheChain | src/shared/GitWatcher.ts:340-378 | A run with one throwing listener whose emitted events do not form a chain. |
| GitWatcher.EventsRepeatExactlyWhen | src/shared/GitWatcher.ts:329-378 | Of two consecutive events the second repeats the first if and only if a listener threw on the first and the same branch, for a commit event with the same commit, was read again. |
| GitWatcher.EachEventStartsFromTheRecordedState | src/shared/GitWatcher.ts:329-373 | Each event starts from the recorded branch or commit and leads to the state just read; an unchanged state emits nothing; no state is recorded without an event. |
| GitWatcher.EventComesExactlyWhen | src/shared/GitWatcher.ts:323-369 | An event comes if and only if the state read is not the recorded one; it is a change of branch if and only if another branch was recorded, and its flag tells whether the branch is the default one without regard to case. |
| GitWatcher.DefaultBranchComesFrom | src/shared/GitWatcher.ts:384-397 | Over every run a configured default branch is the only one known; without one, what is known has been read. |
| GitWatcher.DefaultBranchStays | src/shared/GitWatcher.ts:384-397 | Over every run a default branch that has become known is never replaced, unless it is empty. |
| GitWatcher.ThrowingListenerRepeatsTheEvent | src/shared/GitWatcher.ts:340-378 | From any idle state: after a listener throws on a change of branch, reading the same state again emits the same event once more and records it. |
| GitWatcher.DiffBatches | src/shared/GitWatcher.ts:436-460 | The batches are all the files in order, not empty, of 50 files up to the last and never more. |
| Registration.Registry.RegisterCommand | src/utils/registerNamespacedCommands.ts:28 | A held id is refused with the conflict error; otherwise the host may refuse for its own reason, or the caller becomes the holder. |
| Registration.Registry.Unregister | src/utils/registerNamespacedCommands.ts:20 | Frees the id, whoever holds it. |
| Registration.Owner.Dispose | src/utils/registerNamespacedCommands.ts:18-22 | Empties the list and frees every id that was in it, once, last registered first. |
| Registration.PushRegistration | src/utils/registerNamespacedCommands.ts:28-36 | One registration pushes its id on the owner's list, or leaves the list and the holders alone. |
| Registration.RegisterPrimaries | src/utils/registerNamespacedCommands.ts:27-29 | The first loop: every command's own id in order, up to the first error. |
| Registration.RegisterAliases | src/utils/registerNamespacedCommands.ts:33-44 | The second loop: empty aliases are skipped, a conflict is passed over, any other error ends it. |
| Registration.RegisterNamespacedCommands | src/utils/registerNamespacedCommands.ts:15-50 | A throw leaves the holders exactly as before, having freed what was obtained in reverse; on return the owner's list is what the attempts obtained, and exactly those ids are newly held by the group. |
| Registration.ThrowsExactlyWhen | src/utils/registerNamespacedCommands.ts:26-49 | The call throws if and only if a command's own id is taken, or the host refuses one of the ids for a reason that is not a passed-over conflict. |
| Registration.FirstFatalIsThrown | src/utils/registerNamespacedCommands.ts:36-49 | What is thrown is the host's answer to the first such attempt. |
| Registration.HoldsExactly | src/utils/registerNamespacedCommands.ts:26-45 | On return the group holds exactly the tried ids that were free and not refused. |
| Registration.HoldsEveryPrimary | src/utils/registerNamespacedCommands.ts:26-29 | Every command's own id is among them. |
| Registration.HoldsOwnIdsAndAliases | src/utils/registerNamespacedCommands.ts:26-45 | On return the group holds the commands' own ids and, only without Kilo, every non-empty alias that was free and not refused, and nothing else. |
| Registration.OneErrorIsPassedOver | src/utils/registerNamespacedCommands.ts:34-43 | An alias is passed over if and only if the host throws an error with the one message written out; any other value ends the loop and is thrown. |
| Registration.KiloMeansNoAlias | src/utils/registerNamespacedCommands.ts:31-45 | With Kilo present the outcome is that of the same commands without aliases, so no alias is even tried. |
| Registration.FreshOnly | src/utils/registerNamespacedCommands.ts:33-44 | A group never obtains an id that is held, so an occupied alias keeps its owner. |
| Registration.EveryEventKeepsSettled | src/utils/registerNamespacedCommands.ts:15-50 | Every registration and disposal, by any caller, keeps the agreement between holders and owners' lists. |
| Registration.DisposeRemovesExactly | src/utils/registerNamespacedCommands.ts:18-22 | After any run, disposing removes exactly the group's entries and nobody else's. |
| Registration.SecondDisposeChangesNothing | src/utils/registerNamespacedCommands.ts:11-22 | Whatever others register in between, a second disposal changes nothing. |
| Registration.RegisterThenDispose | src/utils/registerNamespacedCommands.ts:15-50 | A group that throws, or that is disposed at once, leaves all holders as they were. |
| Translations.FindKeys | scripts/find-missing-translations.js:80-96 | The recursive loop lists the dotted names of the leaf paths, in order. |
| Translations.GetValueAtPath | scripts/find-missing-translations.js:99-111 | The loop walks the parts of the split path, own entries before inherited members, and stops at null. |
| Translations.MissingKeys | scripts/find-missing-translations.js:222-232 | The loop reports the keys for which the locale gives nothing. |
| Translations.LeafPathsAreLeaves | scripts/find-missing-translations.js:80-96 | A path is listed if and only if the file has a leaf there. |
| Translations.LeafPathsListedOnce | scripts/find-missing-translations.js:80-96 | No leaf is listed twice. |
| Translations.NamesListedOnce | scripts/find-missing-translations.js:80-96 | No dotted name is listed twice. |
| Translations.SplitUndoesName | scripts/find-missing-translations.js:84-101 | A dotted name is split back into its path if and only if no key has a dot and the first is not empty (unless it is the only one). |
| Translations.PlainKeysAreNameable | scripts/find-missing-translations.js:80-96 | In files with non-empty, dot-free keys every leaf path has such a name. |
| Translations.LookupUndoesListing | scripts/find-missing-translations.js:80-111 | Looking a listed name up in its own file gives the leaf it was listed for. |
| Translations.WalkMissesExactlyWhen | scripts/find-missing-translations.js:99-111 | A lookup finds nothing if and only if the file has nothing there and no inherited member steps in. |
| Translations.ReportIsExact | scripts/find-missing-translations.js:222-232 | The report is exactly the English leaves for which the locale has nothing, in order. |
| Translations.UntranslatedExactly | scripts/find-missing-translations.js:222-232 | An entry is in the report if and only if it is such a leaf with its English value. |
| Translations.InheritedMemberHidesMissingKey | scripts/find-missing-translations.js:99-111 | A missing key named like a member of a text is not reported. |
| Translations.DottedKeyIsReportedAnyway | scripts/find-missing-translations.js:80-111 | A key with a dot is reported missing even from the file that defines it. |
| StreamLog.Stream.Write | jetbrains/host/bootstrap-fork.ts:132-142 | One write moves the complete lines, or an overlong buffer, to the log. |
| StreamLog.WriteLosesNothing | jetbrains/host/bootstrap-fork.ts:137-142 | One write keeps all text between log and buffer. |
| StreamLog.UnfinishedLineIsHeld | jetbrains/host/bootstrap-fork.ts:122-142 | Text without a newline is held back up to 1048576 characters and logged as one piece beyond that. |
| StreamLog.FinishedLineIsLogged | jetbrains/host/bootstrap-fork.ts:132-142 | Up to there, what is before the last newline is logged as one piece, and what follows it is held back. |
| StreamLog.LogTellsWhatWasWritten | jetbrains/host/bootstrap-fork.ts:122-147 | Over every run the written text can be read back from the log and the buffer; what is held back is within the limit and has no newline. |
| StreamLog.NothingOversizedExactlyWhen | jetbrains/host/bootstrap-fork.ts:137-142 | No overlong piece is logged if and only if no chunk makes the line it continues too long. |
| StreamLog.LinesAreLoggedExactlyWhen | jetbrains/host/bootstrap-fork.ts:122-147 | The lines in the logged pieces, with what is held back, are the lines of the written text if and only if no chunk makes the line it continues too long. |
| StreamLog.CuttingKeepsTheLines | jetbrains/host/bootstrap-fork.ts:122-147 | Two ways to cut the same text into such chunks log the same lines and hold the same text back. |
| StreamLog.CuttingChangesThePieces | jetbrains/host/bootstrap-fork.ts:137-142 | The pieces the lines come in do depend on the cutting. |

## Left out

- QuoteProtection.ProtectNewlinesInQuotes: the two placeholder words are fixed for the round trip, as in the source; for other words only the scanner's own contract is stated.
- Substitutions.FindCommandSubstitutionEnd: states what this scanner does, not what a shell does; plain opening parentheses are not counted and quotes inside heredoc bodies count as quotes, as in the source.
- Heredocs.SplitCommandPreservingHeredocs: a here-string `<<<` is treated as the source treats it, not as a shell would.
- Placeholders.RestorePlaceholders: placeholders are symbols, so user text that looks like one (`__VAR_3__`) never collides; the restore is proved on symbols, not on such text.
- Placeholders.CaptureThenRestore: passes that rewrite a match (process substitutions, back-ticks, trimmed bodies) come back rewritten, so for them only the complete expansion is claimed.
- LinePasses.MatchIsLongest: the kinds of stretches are stated in this project's own terms and not as a semantics of regular expressions; a placeholder counts as one word character. Replacing single quotes over several lines is left out, since no line has them.
- WrittenLines.RedirectionIsHidden: like the lemmas beside it, speaks of one thing in otherwise plain text; several and nested ones are covered by LinePasses.ScanExactlyWhen and by the families of LostFragments.
- LineCommands.LineComesOutExactlyWhen: how shell-quote turns a line into tokens is not part of this model; tokenizers that drop placeholders, as in a comment, are covered by LineCommands.LineComesOutExactlyWhenReachedFit.
- TokenGrouping.GroupTokens: the token list is arbitrary; the shell-quote tokenizer is not part of this model.
- ParseCommand.ParseCommand: the line parser is a parameter; its stages on one line are modelled by LinePasses and LineCommands, on symbols and for any tokenizer. The protection of single quotes over several lines is left out, since a line parser that only sees single lines never applies it.
- SafeWrite.Disk.SafeWriteJson: stale or compromised locks, retries of the lock, the internals of the streaming writer, and how paths and random names are made are left out; temporary names are fresh.
- SafeWrite.Disk.Rename: the file operations of the host are given, with POSIX renaming; other platforms' behaviour is left out.
- Writers.FreeLockMeansSettled: nothing is claimed for readers that ignore the lock, who may find the target absent between backup and commit, nor that a waiting call ever gets the lock.
- JsonSchema.NormalizingOnlyTightens: states a sufficient fragment; for each condition of it there is a separate lemma with the exact condition on one node, but the fragment as a whole is not claimed to be the largest one, because a loosened part can be hidden by an unsatisfiable one beside it.
- JsonSchema.TightensExactlyWhenRequiredIsDeclared: assumes an object that meets the normal form, since an unsatisfiable schema tightens trivially.
- JsonSchema.ToolSchemasAreStrict: input that the parser rejects, which is returned as it was, is left out; so are `pattern`, `$ref`, `description`, `default` and unknown keywords. `format` is an annotation. Flattening the top level drops conjuncts, so no preservation of meaning is claimed for it.
- McpName.MangledNamesAreRecovered: names are sequences of single-unit characters.
- TestCaseFiles.ParseHeaders: header names are lower-cased in ASCII only, and members every object inherits are not taken for headers.
- GitWatcher.Watcher.Process: running git, watching files, reading `start`'s first state and listing changed files are replaced by arbitrary answers; branch names are compared in lower case for ASCII letters only; triggers that arrive while a handler runs are dropped, as in the source, so nothing is claimed about their delivery.
- Registration.Registry.RegisterCommand: what a command does when invoked is left out; disposing of a registration never throws.
- Translations.GetValueAtPath: what values inherit is an arbitrary parameter.
- StreamLog.Stream.Write: decoding of byte chunks and the call through to the original stream are left out.
- normalizeString in src/utils/text-normalization.ts is left out: it would only add easy members.
- Activation, webviews, providers, telemetry and the other utilities of the repository are left out.
