/**
 * From a captured line to its commands: which of them come out without placeholders
 * (src/shared/parse-command.ts, lines 220-297).
 *
 * The tokenizer is arbitrary. A word that is one substitution placeholder becomes a
 * command of its own, and its stored body is then restored like any other command.
 */
module LineCommands {
  import opened Text
  import TokenGrouping
  import opened Placeholders
  import opened CaptureOrder
  import opened LinePasses
  import opened Reachable

  /** How the restoring passes read a word: as characters and placeholders. */
  type Reading = string -> Symbols

  // ---------------------------------------------------------------- the commands

  function Spaced(words: seq<string>, reading: Reading): Symbols {
    if words == [] then []
    else if |words| == 1 then reading(words[0])
    else reading(words[0]) + ([Ch(' ')] + Spaced(words[1..], reading))
  }

  /** The command of a group, or nothing for a body that was never stored. */
  function CommandOf(group: TokenGrouping.Group, reading: Reading, store: Store): Option<Symbols> {
    match group
    case Run(words) => Some(Spaced(words, reading))
    case Body(id) => if id < |store.subshells| then Some(store.subshells[id]) else None
  }

  /** Of words without placeholders it is the command that the grouping makes. */
  lemma PlainWordsAreJoined(words: seq<string>, reading: Reading, store: Store, subshells: seq<string>)
    requires forall i :: 0 <= i < |words| ==> reading(words[i]) == Plain(words[i])
    ensures var command := TokenGrouping.CommandOf(TokenGrouping.Run(words), subshells);
      command.Some? && CommandOf(TokenGrouping.Run(words), reading, store) == Some(Plain(command.value))
  {
    SpacedIsJoined(words, reading);
  }

  lemma {:induction false} SpacedIsJoined(words: seq<string>, reading: Reading)
    requires forall i :: 0 <= i < |words| ==> reading(words[i]) == Plain(words[i])
    ensures Spaced(words, reading) == Plain(Join(words, " "))
  {
    if |words| > 1 {
      SpacedIsJoined(words[1..], reading);
      assert Plain(words[0] + " " + Join(words[1..], " ")) == Plain(words[0]) + ([Ch(' ')] + Plain(Join(words[1..], " ")));
    }
  }

  function Commands(groups: seq<TokenGrouping.Group>, reading: Reading, store: Store): (commands: seq<Option<Symbols>>)
    ensures |commands| == |groups|
    ensures forall i :: 0 <= i < |groups| ==> commands[i] == CommandOf(groups[i], reading, store)
  {
    seq(|groups|, i requires 0 <= i < |groups| => CommandOf(groups[i], reading, store))
  }

  /** The restored command is the complete expansion; restoring nothing throws. */
  ghost predicate ComesOut(store: Store, command: Option<Symbols>) {
    command.Some? && IsExpansion(store, command.value, RunFrom(store, 0, command.value))
  }

  ghost predicate AllComeOut(store: Store, commands: seq<Option<Symbols>>) {
    forall i :: 0 <= i < |commands| ==> ComesOut(store, commands[i])
  }

  /** What a word or a body needs for its command to come out. */
  predicate RoleIsRestorable(role: TokenGrouping.Role, reading: Reading, store: Store) {
    match role
    case Cut => true
    case Ignored => true
    case Part(text) => Restorable(store, 0, reading(text))
    case Alone(id) => id < |store.subshells| && Restorable(store, 0, store.subshells[id])
  }

  predicate RolesAreRestorable(roles: seq<TokenGrouping.Role>, reading: Reading, store: Store) {
    roles == [] || (RoleIsRestorable(roles[0], reading, store) && RolesAreRestorable(roles[1..], reading, store))
  }

  predicate TokensAreRestorable(tokens: seq<TokenGrouping.Token>, reading: Reading, store: Store) {
    forall i :: 0 <= i < |tokens| ==> RoleIsRestorable(TokenGrouping.RoleOf(tokens[i]), reading, store)
  }

  /**
   * Whatever the tokens: all commands come out complete exactly when every word that is
   * not a stored body, and every stored body that is a word, is restorable from the first pass on.
   */
  lemma CommandsComeOutExactlyWhen(tokens: seq<TokenGrouping.Token>, reading: Reading, store: Store)
    ensures AllComeOut(store, Commands(TokenGrouping.Groups(tokens), reading, store)) <==> TokensAreRestorable(tokens, reading, store)
  {
    TokenGrouping.GroupingIsLossless(tokens);
    GroupsComeOut(TokenGrouping.Groups(tokens), reading, store);
    KeptAreRestorable(tokens, reading, store);
  }

  lemma RolesAppend(a: seq<TokenGrouping.Role>, b: seq<TokenGrouping.Role>, reading: Reading, store: Store)
    ensures RolesAreRestorable(a + b, reading, store) <==> RolesAreRestorable(a, reading, store) && RolesAreRestorable(b, reading, store)
  {
    if a == [] {
      assert a + b == b;
    } else {
      assert (a + b)[1..] == a[1..] + b;
      RolesAppend(a[1..], b, reading, store);
    }
  }

  lemma RestorableAppend(store: Store, p: nat, a: Symbols, b: Symbols)
    requires p <= PASS_COUNT
    ensures Restorable(store, p, a + b) <==> Restorable(store, p, a) && Restorable(store, p, b)
  {
    RunLeavesNone(store, p, a + b);
    RunLeavesNone(store, p, a);
    RunLeavesNone(store, p, b);
    RunAppend(store, p, a, b);
    RefFreeAppend(RunFrom(store, p, a), RunFrom(store, p, b));
  }

  lemma {:induction false} SpacedIsRestorable(words: seq<string>, reading: Reading, store: Store)
    ensures Restorable(store, 0, Spaced(words, reading)) <==> RolesAreRestorable(TokenGrouping.Parts(words), reading, store)
  {
    if words != [] {
      assert TokenGrouping.Parts(words)[1..] == TokenGrouping.Parts(words[1..]);
      SpacedIsRestorable(words[1..], reading, store);
      if |words| > 1 {
        RestorableAppend(store, 0, reading(words[0]), [Ch(' ')] + Spaced(words[1..], reading));
        RestorableAppend(store, 0, [Ch(' ')], Spaced(words[1..], reading));
      }
    }
  }

  lemma GroupComesOut(group: TokenGrouping.Group, reading: Reading, store: Store)
    ensures ComesOut(store, CommandOf(group, reading, store)) <==> RolesAreRestorable(TokenGrouping.ContentsOf(group), reading, store)
  {
    match group
    case Run(words) =>
      SpacedIsRestorable(words, reading, store);
      PassesExpandCompletely(store, Spaced(words, reading));
    case Body(id) =>
      if id < |store.subshells| { PassesExpandCompletely(store, store.subshells[id]); }
      assert RolesAreRestorable([TokenGrouping.Alone(id)], reading, store) <==> RoleIsRestorable(TokenGrouping.Alone(id), reading, store);
  }

  lemma {:induction false} GroupsComeOut(groups: seq<TokenGrouping.Group>, reading: Reading, store: Store)
    ensures AllComeOut(store, Commands(groups, reading, store)) <==> RolesAreRestorable(TokenGrouping.Contents(groups), reading, store)
  {
    if groups != [] {
      GroupComesOut(groups[0], reading, store);
      GroupsComeOut(groups[1..], reading, store);
      RolesAppend(TokenGrouping.ContentsOf(groups[0]), TokenGrouping.Contents(groups[1..]), reading, store);
      FirstComesOut(groups, reading, store);
    }
  }

  lemma FirstComesOut(groups: seq<TokenGrouping.Group>, reading: Reading, store: Store)
    requires groups != []
    ensures AllComeOut(store, Commands(groups, reading, store))
       <==> ComesOut(store, CommandOf(groups[0], reading, store)) && AllComeOut(store, Commands(groups[1..], reading, store))
  {
    var commands := Commands(groups, reading, store);
    assert commands == [commands[0]] + Commands(groups[1..], reading, store);
    assert commands[1..] == Commands(groups[1..], reading, store);
    if AllComeOut(store, commands) {
      forall i | 0 <= i < |commands[1..]| ensures ComesOut(store, commands[1..][i]) {
        assert commands[1..][i] == commands[i + 1];
      }
    }
  }

  lemma {:induction false} KeptAreRestorable(tokens: seq<TokenGrouping.Token>, reading: Reading, store: Store)
    ensures RolesAreRestorable(TokenGrouping.Kept(tokens), reading, store) <==> TokensAreRestorable(tokens, reading, store)
  {
    if tokens != [] {
      KeptAreRestorable(tokens[1..], reading, store);
      var role, rest := TokenGrouping.RoleOf(tokens[0]), TokenGrouping.Kept(tokens[1..]);
      assert ([role] + rest)[1..] == rest;
      assert TokensAreRestorable(tokens, reading, store) <==>
             RoleIsRestorable(role, reading, store) && TokensAreRestorable(tokens[1..], reading, store) by {
        if RoleIsRestorable(role, reading, store) && TokensAreRestorable(tokens[1..], reading, store) {
          forall i | 0 <= i < |tokens| ensures RoleIsRestorable(TokenGrouping.RoleOf(tokens[i]), reading, store) {
            if i > 0 { assert tokens[i] == tokens[1..][i - 1]; }
          }
        }
        if TokensAreRestorable(tokens, reading, store) {
          forall i | 0 <= i < |tokens[1..]| ensures RoleIsRestorable(TokenGrouping.RoleOf(tokens[1..][i]), reading, store) {
            assert tokens[1..][i] == tokens[i + 1];
          }
        }
      }
    }
  }

  // ---------------------------------------------------------------- in terms of the stored fragments

  lemma LineIsLimited(command: Symbols)
    requires RefFree(command)
    ensures Limited(Captured(command).store)
  {
    LineIsRun(command);
    EmptyIsLimited();
    ArePasses(LineCaptures(command), 0);
    RunIsLimited(EMPTY, command, LineCaptures(command), 0);
  }

  /** Every fragment that a word, or the body it stands for, reaches is fit for its kind. */
  ghost predicate RoleReachesFit(role: TokenGrouping.Role, reading: Reading, store: Store) {
    match role
    case Cut => true
    case Ignored => true
    case Part(text) => ReachesFit(store, reading(text))
    case Alone(id) => id < |store.subshells| && ReachesFit(store, store.subshells[id])
  }

  lemma RoleRestorableExactlyWhenReachesFit(role: TokenGrouping.Role, reading: Reading, store: Store)
    requires Limited(store)
    ensures RoleIsRestorable(role, reading, store) <==> RoleReachesFit(role, reading, store)
  {
    match role
    case Part(text) => RestorableExactlyWhenReachedFit(store, reading(text));
    case Alone(id) =>
      if id < |store.subshells| { RestorableExactlyWhenReachedFit(store, store.subshells[id]); }
    case _ =>
  }

  /**
   * For the store of a line, and whatever the tokenizer makes of the line: all commands
   * come out exactly when every fragment is fit that a word reaches, or a body that is a word.
   */
  lemma LineComesOutExactlyWhenReachedFit(command: Symbols, tokens: seq<TokenGrouping.Token>, reading: Reading)
    requires RefFree(command)
    ensures var store := Captured(command).store;
      AllComeOut(store, Commands(TokenGrouping.Groups(tokens), reading, store))
      <==> forall i :: 0 <= i < |tokens| ==> RoleReachesFit(TokenGrouping.RoleOf(tokens[i]), reading, store)
  {
    var store := Captured(command).store;
    LineIsLimited(command);
    CommandsComeOutExactlyWhen(tokens, reading, store);
    forall i | 0 <= i < |tokens|
      ensures RoleIsRestorable(TokenGrouping.RoleOf(tokens[i]), reading, store)
         <==> RoleReachesFit(TokenGrouping.RoleOf(tokens[i]), reading, store)
    {
      RoleRestorableExactlyWhenReachesFit(TokenGrouping.RoleOf(tokens[i]), reading, store);
    }
  }

  // ---------------------------------------------------------------- when the tokenizer keeps all placeholders

  /** What a token has of the line. */
  function TextOf(role: TokenGrouping.Role, reading: Reading): Symbols {
    match role
    case Cut => []
    case Ignored => []
    case Part(text) => reading(text)
    case Alone(id) => [Ref(Subshell, id)]
  }

  function TextsOf(tokens: seq<TokenGrouping.Token>, reading: Reading): Symbols {
    if tokens == [] then [] else TextOf(TokenGrouping.RoleOf(tokens[0]), reading) + TextsOf(tokens[1..], reading)
  }

  function RefsOf(text: Symbols): Symbols {
    if text == [] then [] else (if text[0].Ref? then [text[0]] else []) + RefsOf(text[1..])
  }

  /** All placeholders of the line are in the tokens, in order. Characters may be dropped, added or changed. */
  predicate KeepsPlaceholders(line: Symbols, tokens: seq<TokenGrouping.Token>, reading: Reading) {
    RefsOf(TextsOf(tokens, reading)) == RefsOf(line)
  }

  predicate StandsAlone(tokens: seq<TokenGrouping.Token>, s: Symbol) {
    s.Ref? && s.kind == Subshell && exists i :: 0 <= i < |tokens| && TokenGrouping.RoleOf(tokens[i]) == TokenGrouping.Alone(s.id)
  }

  /** All stored fragments, except for bodies that are words, are fit for their kinds. */
  predicate OthersFit(store: Store, tokens: seq<TokenGrouping.Token>) {
    forall kind, id :: 0 <= id < |store.Of(kind)| && !StandsAlone(tokens, Ref(kind, id)) ==> Without(store.Of(kind)[id], Unfit(kind))
  }

  lemma {:induction false} RefsAreThere(text: Symbols, s: Symbol)
    ensures s in RefsOf(text) <==> s.Ref? && s in text
  {
    if text != [] {
      RefsAreThere(text[1..], s);
      assert text == [text[0]] + text[1..];
    }
  }

  lemma {:induction false} DistinctRefs(text: Symbols)
    ensures Distinct(text) <==> Distinct(RefsOf(text))
  {
    if text != [] {
      var first, rest := if text[0].Ref? then [text[0]] else [], text[1..];
      DistinctRefs(rest);
      assert text == [text[0]] + rest;
      DistinctAppend([text[0]], rest);
      DistinctAppend(first, RefsOf(rest));
      if text[0].Ref? {
        RefsAreThere(rest, text[0]);
        NotInIsApart(text[0], rest);
        NotInIsApart(text[0], RefsOf(rest));
      }
    }
  }

  lemma NotInIsApart(s: Symbol, text: Symbols)
    requires s.Ref?
    ensures Apart([s], text) <==> s !in text
  {
    if Apart([s], text) {
      forall j | 0 <= j < |text| ensures text[j] != s { assert [s][0] != text[j]; }
    }
  }

  lemma KeepsTheSame(line: Symbols, tokens: seq<TokenGrouping.Token>, reading: Reading, s: Symbol)
    requires KeepsPlaceholders(line, tokens, reading) && s.Ref?
    ensures s in TextsOf(tokens, reading) <==> s in line
  {
    RefsAreThere(line, s);
    RefsAreThere(TextsOf(tokens, reading), s);
  }

  lemma {:induction false} FindToken(tokens: seq<TokenGrouping.Token>, reading: Reading, s: Symbol) returns (i: nat)
    requires s in TextsOf(tokens, reading)
    ensures i < |tokens| && s in TextOf(TokenGrouping.RoleOf(tokens[i]), reading)
  {
    if s in TextOf(TokenGrouping.RoleOf(tokens[0]), reading) {
      i := 0;
    } else {
      var k := FindToken(tokens[1..], reading, s);
      i := k + 1;
    }
  }

  lemma {:induction false} TokenIsIn(tokens: seq<TokenGrouping.Token>, reading: Reading, i: nat, s: Symbol)
    requires i < |tokens| && s in TextOf(TokenGrouping.RoleOf(tokens[i]), reading)
    ensures s in TextsOf(tokens, reading)
  {
    if i > 0 { TokenIsIn(tokens[1..], reading, i - 1, s); }
  }

  lemma ApartExcludes(a: Symbols, b: Symbols, s: Symbol)
    requires Apart(a, b) && s.Ref? && s in a
    ensures s !in b
  {
  }

  lemma {:induction false} OneToken(tokens: seq<TokenGrouping.Token>, reading: Reading, i: nat, j: nat, s: Symbol)
    requires Distinct(TextsOf(tokens, reading)) && s.Ref? && i < j < |tokens|
    requires s in TextOf(TokenGrouping.RoleOf(tokens[i]), reading)
    ensures s !in TextOf(TokenGrouping.RoleOf(tokens[j]), reading)
  {
    var first, rest := TextOf(TokenGrouping.RoleOf(tokens[0]), reading), TextsOf(tokens[1..], reading);
    DistinctAppend(first, rest);
    if i == 0 { ApartExcludes(first, rest, s); }
    if i > 0 {
      OneToken(tokens[1..], reading, i - 1, j - 1, s);
    } else if s in TextOf(TokenGrouping.RoleOf(tokens[j]), reading) {
      TokenIsIn(tokens[1..], reading, j - 1, s);
    }
  }

  lemma {:induction false} ReachedIsHeld(store: Store, n: nat, text: Symbols, s: Symbol) returns (via: Symbol)
    requires ReachesIn(store, n, text, s) && s !in text
    ensures Stands(store, via) && s in Held(store, via)
    decreases n
  {
    var i :| 0 <= i < |text| && (text[i] == s || (n > 0 && Stands(store, text[i]) && ReachesIn(store, n - 1, Held(store, text[i]), s)));
    if s in Held(store, text[i]) {
      via := text[i];
    } else {
      via := ReachedIsHeld(store, n - 1, Held(store, text[i]), s);
    }
  }

  /** What has a place in the line is in no fragment. */
  lemma NotHeld(store: Store, line: Symbols, s: Symbol, via: Symbol)
    requires OnePlace(store, line) && s.Ref? && s in line && Stands(store, via)
    ensures s !in Held(store, via)
  {
    assert AllApart(line, store.Of(via.kind));
  }

  /** A placeholder that is a word by itself is reached from no other word and from no body. */
  lemma AloneIsNotReached(store: Store, line: Symbols, tokens: seq<TokenGrouping.Token>, reading: Reading, text: Symbols, s: Symbol)
    requires OnePlace(store, line) && KeepsPlaceholders(line, tokens, reading)
    requires StandsAlone(tokens, s) && s !in text
    ensures !Reaches(store, text, s)
  {
    var k :| 0 <= k < |tokens| && TokenGrouping.RoleOf(tokens[k]) == TokenGrouping.Alone(s.id);
    assert s in TextOf(TokenGrouping.RoleOf(tokens[k]), reading);
    TokenIsIn(tokens, reading, k, s);
    KeepsTheSame(line, tokens, reading, s);
    forall n: nat ensures !ReachesIn(store, n, text, s) {
      if ReachesIn(store, n, text, s) {
        var via := ReachedIsHeld(store, n, text, s);
        NotHeld(store, line, s, via);
      }
    }
  }

  lemma OnlyToken(tokens: seq<TokenGrouping.Token>, reading: Reading, i: nat, k: nat, s: Symbol)
    requires Distinct(TextsOf(tokens, reading)) && s.Ref? && i < |tokens| && k < |tokens|
    requires s in TextOf(TokenGrouping.RoleOf(tokens[i]), reading) && s in TextOf(TokenGrouping.RoleOf(tokens[k]), reading)
    ensures i == k
  {
    if i < k { OneToken(tokens, reading, i, k, s); }
    if k < i { OneToken(tokens, reading, k, i, s); }
  }

  lemma AloneIsNoPart(line: Symbols, tokens: seq<TokenGrouping.Token>, reading: Reading, i: nat, s: Symbol)
    requires Distinct(line) && KeepsPlaceholders(line, tokens, reading) && StandsAlone(tokens, s)
    requires i < |tokens| && TokenGrouping.RoleOf(tokens[i]).Part?
    ensures s !in TextOf(TokenGrouping.RoleOf(tokens[i]), reading)
  {
    DistinctRefs(line);
    DistinctRefs(TextsOf(tokens, reading));
    var k :| 0 <= k < |tokens| && TokenGrouping.RoleOf(tokens[k]) == TokenGrouping.Alone(s.id);
    assert [s][0] == s;
    if s in TextOf(TokenGrouping.RoleOf(tokens[i]), reading) {
      OnlyToken(tokens, reading, i, k, s);
    }
  }

  lemma OthersFitReached(store: Store, line: Symbols, tokens: seq<TokenGrouping.Token>, reading: Reading, i: nat)
    requires OnePlace(store, line) && KeepsPlaceholders(line, tokens, reading) && OthersFit(store, tokens) && i < |tokens|
    ensures RoleReachesFit(TokenGrouping.RoleOf(tokens[i]), reading, store)
  {
    match TokenGrouping.RoleOf(tokens[i])
    case Part(text) =>
      forall s: Symbol | s.Ref? && Reaches(store, reading(text), s) ensures FragmentFits(store, s) {
        if StandsAlone(tokens, s) {
          AloneIsNoPart(line, tokens, reading, i, s);
          AloneIsNotReached(store, line, tokens, reading, reading(text), s);
        }
      }
    case Alone(id) =>
      var alone := Ref(Subshell, id);
      assert alone in TextOf(TokenGrouping.RoleOf(tokens[i]), reading);
      TokenIsIn(tokens, reading, i, alone);
      KeepsTheSame(line, tokens, reading, alone);
      assert Below(line, Subshell, |store.subshells|);
      forall s: Symbol | s.Ref? && Reaches(store, store.subshells[id], s) ensures FragmentFits(store, s) {
        if StandsAlone(tokens, s) {
          var k :| 0 <= k < |tokens| && TokenGrouping.RoleOf(tokens[k]) == TokenGrouping.Alone(s.id);
          assert s in TextOf(TokenGrouping.RoleOf(tokens[k]), reading);
          TokenIsIn(tokens, reading, k, s);
          KeepsTheSame(line, tokens, reading, s);
          NotHeld(store, line, s, alone);
          AloneIsNotReached(store, line, tokens, reading, store.subshells[id], s);
        }
      }
    case _ =>
  }

  lemma ReachedFitOthers(store: Store, line: Symbols, tokens: seq<TokenGrouping.Token>, reading: Reading)
    requires KeepsPlaceholders(line, tokens, reading) && ReachesSince(EMPTY, store, line)
    requires forall i :: 0 <= i < |tokens| ==> RoleReachesFit(TokenGrouping.RoleOf(tokens[i]), reading, store)
    ensures OthersFit(store, tokens)
  {
    forall kind, id | 0 <= id < |store.Of(kind)| && !StandsAlone(tokens, Ref(kind, id))
      ensures Without(store.Of(kind)[id], Unfit(kind))
    {
      var s := Ref(kind, id);
      assert EMPTY.Of(kind) == [];
      assert Reaches(store, line, s);
      ReachedFits(store, line, tokens, reading, s);
    }
  }

  predicate Through(store: Store, n: nat, via: Symbol, s: Symbol) {
    via == s || (n > 0 && Stands(store, via) && ReachesIn(store, n - 1, Held(store, via), s))
  }

  lemma ReachesThrough(store: Store, n: nat, text: Symbols, via: Symbol, s: Symbol)
    requires via in text && Through(store, n, via, s)
    ensures Reaches(store, text, s)
  {
    var j :| 0 <= j < |text| && text[j] == via;
    assert ReachesIn(store, n, text, s);
  }

  lemma FirstStep(store: Store, line: Symbols, s: Symbol) returns (n: nat, via: Symbol)
    requires Reaches(store, line, s) && s.Ref?
    ensures via in line && via.Ref? && Through(store, n, via, s)
  {
    n :| ReachesIn(store, n, line, s);
    var k :| 0 <= k < |line| && (line[k] == s || (n > 0 && Stands(store, line[k]) && ReachesIn(store, n - 1, Held(store, line[k]), s)));
    via := line[k];
  }

  lemma ReachedFits(store: Store, line: Symbols, tokens: seq<TokenGrouping.Token>, reading: Reading, s: Symbol)
    requires KeepsPlaceholders(line, tokens, reading) && s.Ref? && Reaches(store, line, s) && !StandsAlone(tokens, s)
    requires forall i :: 0 <= i < |tokens| ==> RoleReachesFit(TokenGrouping.RoleOf(tokens[i]), reading, store)
    ensures FragmentFits(store, s)
  {
    var n, via := FirstStep(store, line, s);
    KeepsTheSame(line, tokens, reading, via);
    var i := FindToken(tokens, reading, via);
    var role := TokenGrouping.RoleOf(tokens[i]);
    assert RoleReachesFit(role, reading, store);
    if role.Part? {
      ReachesThrough(store, n, reading(role.text), via, s);
    } else {
      assert via == Ref(Subshell, role.id) && via != s;
      assert ReachesIn(store, n - 1, store.subshells[role.id], s);
    }
  }

  /**
   * When the tokenizer keeps the line's placeholders: all commands come out exactly when
   * every stored fragment is fit for its kind, bodies that are words excepted.
   */
  lemma LineComesOutExactlyWhen(command: Symbols, tokens: seq<TokenGrouping.Token>, reading: Reading)
    requires RefFree(command) && KeepsPlaceholders(Captured(command).text, tokens, reading)
    ensures var store := Captured(command).store;
      AllComeOut(store, Commands(TokenGrouping.Groups(tokens), reading, store)) <==> OthersFit(store, tokens)
  {
    var store, line := Captured(command).store, Captured(command).text;
    LineIsRun(command);
    PlainHasOnePlace(command);
    RunKeepsOnePlace(EMPTY, command, LineCaptures(command));
    RunIsReached(EMPTY, command, LineCaptures(command));
    LineComesOutExactlyWhenReachedFit(command, tokens, reading);
    if OthersFit(store, tokens) {
      forall i | 0 <= i < |tokens| ensures RoleReachesFit(TokenGrouping.RoleOf(tokens[i]), reading, store) {
        OthersFitReached(store, line, tokens, reading, i);
      }
    } else if forall i :: 0 <= i < |tokens| ==> RoleReachesFit(TokenGrouping.RoleOf(tokens[i]), reading, store) {
      ReachedFitOthers(store, line, tokens, reading);
    }
  }

  // ---------------------------------------------------------------- the commands in their line

  predicate IsBody(store: Store, word: Symbols) {
    |word| == 1 && word[0].Ref? && word[0].kind == Subshell && word[0].id < |store.subshells|
  }

  /** What the word's command comes out as, with its delimiters if it is a body. */
  function WrittenOut(store: Store, word: Symbols): Symbols {
    if IsBody(store, word) then Wrap(Subshell, RunFrom(store, 0, store.subshells[word[0].id])) else RunFrom(store, 0, word)
  }

  function AllWrittenOut(store: Store, words: seq<Symbols>): (written: seq<Symbols>)
    ensures |written| == |words| && forall i :: 0 <= i < |words| ==> written[i] == WrittenOut(store, words[i])
  {
    seq(|words|, i requires 0 <= i < |words| => WrittenOut(store, words[i]))
  }

  predicate WordIsRestorable(store: Store, word: Symbols) {
    Restorable(store, 0, if IsBody(store, word) then store.subshells[word[0].id] else word)
  }

  predicate WordsAreRestorable(store: Store, words: seq<Symbols>) {
    words == [] || (WordIsRestorable(store, words[0]) && WordsAreRestorable(store, words[1..]))
  }

  predicate AllPlain(texts: seq<Symbols>) {
    texts == [] || (RefFree(texts[0]) && AllPlain(texts[1..]))
  }

  lemma WrapIsPlain(text: Symbols)
    ensures RefFree(Wrap(Subshell, text)) <==> RefFree(text)
  {
    RefFreeAppend(Plain("$("), text);
    RefFreeAppend(Plain("$(") + text, Plain(")"));
  }

  lemma WrittenOutIsPlain(store: Store, word: Symbols)
    ensures RefFree(WrittenOut(store, word)) <==> WordIsRestorable(store, word)
  {
    if IsBody(store, word) {
      RunLeavesNone(store, 0, store.subshells[word[0].id]);
      WrapIsPlain(RunFrom(store, 0, store.subshells[word[0].id]));
    } else {
      RunLeavesNone(store, 0, word);
    }
  }

  /** A word that comes out is its own expansion, nine levels deep. */
  lemma WrittenOutExpands(store: Store, word: Symbols)
    requires WordIsRestorable(store, word)
    ensures Expand(store, PASS_COUNT + 1, word) == WrittenOut(store, word)
  {
    if IsBody(store, word) {
      var body := store.subshells[word[0].id];
      assert word == [word[0]];
      ExpandRef(store, PASS_COUNT + 1, word[0]);
      RunIsExpand(store, 0, body, PASS_COUNT);
      ExpandAppend(store, PASS_COUNT, Plain("$("), body);
      ExpandAppend(store, PASS_COUNT, Plain("$(") + body, Plain(")"));
      ExpandStops(store, 0, PASS_COUNT, Plain("$("));
      ExpandStops(store, 0, PASS_COUNT, Plain(")"));
    } else {
      RunIsExpand(store, 0, word, PASS_COUNT + 1);
    }
  }

  lemma {:induction false} WordsExpand(store: Store, words: seq<Symbols>, between: seq<Symbols>)
    requires |between| == |words| + 1 && AllPlain(between) && WordsAreRestorable(store, words)
    ensures Expand(store, PASS_COUNT + 1, Interleaved(words, between)) == Interleaved(AllWrittenOut(store, words), between)
    ensures RefFree(Interleaved(AllWrittenOut(store, words), between))
  {
    ExpandStops(store, 0, PASS_COUNT + 1, between[0]);
    if words != [] {
      var rest, written := Interleaved(words[1..], between[1..]), Interleaved(AllWrittenOut(store, words[1..]), between[1..]);
      WordsExpand(store, words[1..], between[1..]);
      WrittenOutExpands(store, words[0]);
      WrittenOutIsPlain(store, words[0]);
      FirstWrittenOut(store, words);
      ExpandAppend(store, PASS_COUNT + 1, between[0], words[0] + rest);
      ExpandAppend(store, PASS_COUNT + 1, words[0], rest);
      RefFreeAppend(WrittenOut(store, words[0]), written);
      RefFreeAppend(between[0], WrittenOut(store, words[0]) + written);
    }
  }

  lemma FirstWrittenOut(store: Store, words: seq<Symbols>)
    requires words != []
    ensures AllWrittenOut(store, words)[1..] == AllWrittenOut(store, words[1..])
  {
  }

  lemma {:induction false} PlainWordsRestorable(store: Store, words: seq<Symbols>, between: seq<Symbols>)
    requires |between| == |words| + 1 && RefFree(Interleaved(AllWrittenOut(store, words), between))
    ensures WordsAreRestorable(store, words)
  {
    if words != [] {
      var written := Interleaved(AllWrittenOut(store, words[1..]), between[1..]);
      FirstWrittenOut(store, words);
      RefFreeAppend(between[0], WrittenOut(store, words[0]) + written);
      RefFreeAppend(WrittenOut(store, words[0]), written);
      WrittenOutIsPlain(store, words[0]);
      PlainWordsRestorable(store, words[1..], between[1..]);
    }
  }

  /**
   * However the captured line is cut into words, its words and bodies as they come out
   * make up the line's complete expansion, each in its own place, exactly when all of them come out.
   */
  lemma CommandsComeFromTheLine(command: Symbols, words: seq<Symbols>, between: seq<Symbols>)
    requires |between| == |words| + 1 && AllPlain(between) && Captured(command).text == Interleaved(words, between)
    ensures var store := Captured(command).store;
      IsExpansion(store, Captured(command).text, Interleaved(AllWrittenOut(store, words), between)) <==> WordsAreRestorable(store, words)
  {
    var store, written := Captured(command).store, Interleaved(AllWrittenOut(Captured(command).store, words), between);
    if WordsAreRestorable(store, words) {
      WordsExpand(store, words, between);
    }
    if RefFree(written) {
      PlainWordsRestorable(store, words, between);
    }
  }

  /** If each match is restored as it was written, what they make up is the command itself. */
  lemma CommandsAreTheLine(command: Symbols, words: seq<Symbols>, between: seq<Symbols>)
    requires RefFree(command) && forall c :: c in LineCaptures(command) ==> c.Exact()
    requires |between| == |words| + 1 && AllPlain(between) && Captured(command).text == Interleaved(words, between)
    ensures var store := Captured(command).store;
      Interleaved(AllWrittenOut(store, words), between) == command <==> WordsAreRestorable(store, words)
  {
    var store, written := Captured(command).store, Interleaved(AllWrittenOut(Captured(command).store, words), between);
    LineIsRun(command);
    CaptureThenRestore(command, LineCaptures(command));
    CommandsComeFromTheLine(command, words, between);
    if WordsAreRestorable(store, words) {
      ExpansionIsUnique(store, Captured(command).text, command, written);
    }
  }

  // ---------------------------------------------------------------- when the tokenizer throws

  lemma {:induction false} InterleavedIsPlain(words: seq<Symbols>, between: seq<Symbols>)
    requires |between| == |words| + 1 && AllPlain(between)
    ensures RefFree(Interleaved(words, between)) <==> AllPlain(words)
  {
    if words != [] {
      InterleavedIsPlain(words[1..], between[1..]);
      RefFreeAppend(between[0], words[0] + Interleaved(words[1..], between[1..]));
      RefFreeAppend(words[0], Interleaved(words[1..], between[1..]));
    }
  }

  lemma {:induction false} PlainTexts(texts: seq<Symbols>)
    requires AllPlain(texts)
    ensures forall i :: 0 <= i < |texts| ==> RefFree(texts[i])
  {
    if texts != [] {
      PlainTexts(texts[1..]);
      assert forall i :: 0 < i < |texts| ==> texts[i] == texts[1..][i - 1];
    }
  }

  /**
   * The line cut at its operators instead, bodies left in place: the pieces come out
   * exactly when all stored fragments are fit for their kinds.
   */
  lemma PiecesComeOutExactlyWhen(command: Symbols, pieces: seq<Symbols>, between: seq<Symbols>)
    requires RefFree(command) && |between| == |pieces| + 1 && AllPlain(between)
    requires Captured(command).text == Interleaved(pieces, between)
    ensures var store := Captured(command).store; AllPlain(AllRestored(store, pieces)) <==> Nests(store)
  {
    var store := Captured(command).store;
    LineIsRun(command);
    RestorableExactlyWhenNests(command, LineCaptures(command));
    PlainTexts(between);
    RestoresWordByWord(store, pieces, between);
    InterleavedIsPlain(AllRestored(store, pieces), between);
    RunLeavesNone(store, 0, Captured(command).text);
  }
}
