/**
 * Grouping shell tokens into commands (src/shared/parse-command.ts, lines 248-281).
 * The token list is arbitrary: the tokenizer itself is not part of this model.
 */
module TokenGrouping {
  import opened Text

  datatype Token = Word(text: string) | Operator(op: string) | OtherToken

  predicate IsChain(op: string) {
    op == "&&" || op == "||" || op == ";" || op == "|" || op == "&"
  }

  // ---------------------------------------------------------------- placeholder words

  predicate IsDigit(c: char) {
    '0' <= c <= '9'
  }

  function Digit(c: char): nat
    requires IsDigit(c)
  {
    c as int - '0' as int
  }

  function Number(digits: string): nat
    requires forall c :: c in digits ==> IsDigit(c)
  {
    if digits == "" then 0 else Number(digits[..|digits| - 1]) * 10 + Digit(digits[|digits| - 1])
  }

  function Decimal(n: nat): (digits: string)
    ensures digits != "" && forall c :: c in digits ==> IsDigit(c)
    ensures Number(digits) == n
  {
    var last := [(n % 10 + '0' as int) as char];
    if n < 10 then last
    else
      var digits := Decimal(n / 10) + last;
      assert digits[..|digits| - 1] == Decimal(n / 10);
      digits
  }

  /** The id of a word that is a subshell placeholder and nothing else. */
  function SubshellId(word: string): Option<nat> {
    if |word| > 10 && word[..8] == "__SUBSH_" && word[|word| - 2..] == "__" && (forall c :: c in word[8..|word| - 2] ==> IsDigit(c))
    then Some(Number(word[8..|word| - 2]))
    else None
  }

  function SubshellPlaceholder(id: nat): string {
    "__SUBSH_" + Decimal(id) + "__"
  }

  /** The word that a parse inserts for a stored body is read back as that body's id. */
  lemma PlaceholderIsRead(id: nat)
    ensures SubshellId(SubshellPlaceholder(id)) == Some(id)
  {
    var word := SubshellPlaceholder(id);
    assert word[8..|word| - 2] == Decimal(id);
    assert word[..8] == "__SUBSH_" && word[|word| - 2..] == "__";
  }

  // ---------------------------------------------------------------- specification

  datatype Group = Run(words: seq<string>) | Body(id: nat)

  /** What a token contributes: a cut, a stored body standing alone, a word, or nothing. */
  datatype Role = Cut | Alone(id: nat) | Part(text: string) | Ignored

  function RoleOf(token: Token): Role {
    match token
    case Operator(op) => if IsChain(op) then Cut else Part(op)
    case Word(text) => if SubshellId(text).Some? then Alone(SubshellId(text).value) else Part(text)
    case OtherToken => Ignored
  }

  predicate Separates(token: Token) {
    RoleOf(token).Cut? || RoleOf(token).Alone?
  }

  function RunOf(words: seq<string>): seq<Group> {
    if words == [] then [] else [Run(words)]
  }

  /** The groups of `tokens` when `current` holds the words of a run that has begun. */
  function GroupsAfter(current: seq<string>, tokens: seq<Token>): seq<Group>
    decreases |tokens|
  {
    if tokens == [] then RunOf(current)
    else match RoleOf(tokens[0])
      case Cut => RunOf(current) + GroupsAfter([], tokens[1..])
      case Alone(id) => RunOf(current) + ([Body(id)] + GroupsAfter([], tokens[1..]))
      case Part(text) => GroupsAfter(current + [text], tokens[1..])
      case Ignored => GroupsAfter(current, tokens[1..])
  }

  function Groups(tokens: seq<Token>): seq<Group> {
    GroupsAfter([], tokens)
  }

  /** A command: words joined by a space, a body's text, or nothing for an id that was never stored. */
  function CommandOf(group: Group, subshells: seq<string>): Option<string> {
    match group
    case Run(words) => Some(Join(words, " "))
    case Body(id) => if id < |subshells| then Some(subshells[id]) else None
  }

  function Commands(groups: seq<Group>, subshells: seq<string>): (commands: seq<Option<string>>)
    ensures |commands| == |groups|
    ensures forall i :: 0 <= i < |groups| ==> commands[i] == CommandOf(groups[i], subshells)
  {
    seq(|groups|, i requires 0 <= i < |groups| => CommandOf(groups[i], subshells))
  }

  // ---------------------------------------------------------------- the loop

  method GroupTokens(tokens: seq<Token>, subshells: seq<string>) returns (commands: seq<Option<string>>)
    ensures commands == Commands(Groups(tokens), subshells)
  {
    commands := [];
    var currentCommand: seq<string> := [];
    ghost var done: seq<Group> := [];
    assert tokens[0..] == tokens;
    for i := 0 to |tokens|
      invariant Groups(tokens) == done + GroupsAfter(currentCommand, tokens[i..])
      invariant commands == Commands(done, subshells)
    {
      var token := tokens[i];
      assert tokens[i..][0] == token && tokens[i..][1..] == tokens[i + 1..];
      ghost var before, run := done, RunOf(currentCommand);
      if token.Operator? {
        if IsChain(token.op) {
          if |currentCommand| > 0 {
            commands := commands + [Some(Join(currentCommand, " "))];
            currentCommand := [];
          }
          done := done + run;
          Associates(before, run, GroupsAfter([], tokens[i + 1..]));
        } else {
          currentCommand := currentCommand + [token.op];
        }
      } else if token.Word? {
        var subshellMatch := SubshellId(token.text);
        if subshellMatch.Some? {
          if |currentCommand| > 0 {
            commands := commands + [Some(Join(currentCommand, " "))];
            currentCommand := [];
          }
          var id := subshellMatch.value;
          commands := commands + [if id < |subshells| then Some(subshells[id]) else None];
          done := done + run + [Body(id)];
          Associates(before + run, [Body(id)], GroupsAfter([], tokens[i + 1..]));
          Associates(before, run, [Body(id)] + GroupsAfter([], tokens[i + 1..]));
        } else {
          currentCommand := currentCommand + [token.text];
        }
      }
    }
    assert tokens[|tokens|..] == [];
    if |currentCommand| > 0 {
      commands := commands + [Some(Join(currentCommand, " "))];
    }
  }

  // ---------------------------------------------------------------- what the groups are

  function Words(tokens: seq<Token>): seq<string> {
    if tokens == [] then []
    else if RoleOf(tokens[0]).Part? then [RoleOf(tokens[0]).text] + Words(tokens[1..])
    else Words(tokens[1..])
  }

  function Standing(token: Token): seq<Group> {
    if RoleOf(token).Alone? then [Body(RoleOf(token).id)] else []
  }

  predicate NoSeparator(tokens: seq<Token>) {
    forall i :: 0 <= i < |tokens| ==> !Separates(tokens[i])
  }

  /** Tokens without a separator make one group of all their words, or none. */
  lemma OneRun(tokens: seq<Token>)
    requires NoSeparator(tokens)
    ensures Groups(tokens) == RunOf(Words(tokens))
  {
    OneRunAfter([], tokens);
    assert [] + Words(tokens) == Words(tokens);
  }

  lemma {:induction false} OneRunAfter(current: seq<string>, tokens: seq<Token>)
    requires NoSeparator(tokens)
    ensures GroupsAfter(current, tokens) == RunOf(current + Words(tokens))
    decreases |tokens|
  {
    if tokens == [] {
      assert current + [] == current;
    } else {
      assert !Separates(tokens[0]);
      if RoleOf(tokens[0]).Part? {
        var text := RoleOf(tokens[0]).text;
        OneRunAfter(current + [text], tokens[1..]);
        Associates(current, [text], Words(tokens[1..]));
      } else {
        OneRunAfter(current, tokens[1..]);
      }
    }
  }

  /** A separator splits the grouping in two; a body also stands as a group of its own. */
  lemma SplitsAtSeparator(a: seq<Token>, separator: Token, b: seq<Token>)
    requires Separates(separator)
    ensures Groups(a + ([separator] + b)) == Groups(a) + (Standing(separator) + Groups(b))
  {
    SplitsAfter([], a, separator, b);
  }

  lemma {:induction false} SplitsAfter(current: seq<string>, a: seq<Token>, separator: Token, b: seq<Token>)
    requires Separates(separator)
    ensures GroupsAfter(current, a + ([separator] + b)) == GroupsAfter(current, a) + (Standing(separator) + Groups(b))
    decreases |a|
  {
    var tail := [separator] + b;
    if a == [] {
      assert a + tail == tail && tail[1..] == b;
      assert RoleOf(separator).Cut? ==> [] + Groups(b) == Groups(b);
    } else {
      assert (a + tail)[0] == a[0] && (a + tail)[1..] == a[1..] + tail;
      var rest := Standing(separator) + Groups(b);
      match RoleOf(a[0])
      case Cut =>
        SplitsAfter([], a[1..], separator, b);
        Associates(RunOf(current), Groups(a[1..]), rest);
      case Alone(id) =>
        SplitsAfter([], a[1..], separator, b);
        Associates(RunOf(current), [Body(id)] + Groups(a[1..]), rest);
        Associates([Body(id)], Groups(a[1..]), rest);
      case Part(text) =>
        SplitsAfter(current + [text], a[1..], separator, b);
      case Ignored =>
        SplitsAfter(current, a[1..], separator, b);
    }
  }

  ghost predicate OneRunLaw(g: seq<Token> -> seq<Group>) {
    forall tokens | NoSeparator(tokens) :: g(tokens) == RunOf(Words(tokens))
  }

  ghost predicate SplitLaw(g: seq<Token> -> seq<Group>) {
    forall a: seq<Token>, separator, b: seq<Token> | Separates(separator) ::
      g(a + ([separator] + b)) == g(a) + (Standing(separator) + g(b))
  }

  /** The two laws hold of no other way to group tokens. */
  lemma {:induction false} LawsDetermineGroups(g: seq<Token> -> seq<Group>, tokens: seq<Token>)
    requires OneRunLaw(g) && SplitLaw(g)
    ensures g(tokens) == Groups(tokens)
    decreases |tokens|
  {
    if NoSeparator(tokens) {
      OneRun(tokens);
    } else {
      var n :| 0 <= n < |tokens| && Separates(tokens[n]);
      var a, b := tokens[..n], tokens[n + 1..];
      assert tokens == a + ([tokens[n]] + b);
      LawsDetermineGroups(g, a);
      LawsDetermineGroups(g, b);
      SplitByBoth(g, a, tokens[n], b);
    }
  }

  lemma SplitByBoth(g: seq<Token> -> seq<Group>, a: seq<Token>, separator: Token, b: seq<Token>)
    requires SplitLaw(g) && Separates(separator) && g(a) == Groups(a) && g(b) == Groups(b)
    ensures g(a + ([separator] + b)) == Groups(a + ([separator] + b))
  {
    SplitsAtSeparator(a, separator, b);
  }

  /** What the groups hold, one role each, in order. */
  function Contents(groups: seq<Group>): seq<Role> {
    if groups == [] then [] else ContentsOf(groups[0]) + Contents(groups[1..])
  }

  function ContentsOf(group: Group): seq<Role> {
    match group
    case Run(words) => Parts(words)
    case Body(id) => [Alone(id)]
  }

  function Parts(words: seq<string>): (parts: seq<Role>)
    ensures |parts| == |words| && forall i :: 0 <= i < |words| ==> parts[i] == Part(words[i])
  {
    seq(|words|, i requires 0 <= i < |words| => Part(words[i]))
  }

  /** The tokens that are neither chain operators nor ignored. */
  function Kept(tokens: seq<Token>): seq<Role> {
    if tokens == [] then []
    else if RoleOf(tokens[0]).Part? || RoleOf(tokens[0]).Alone? then [RoleOf(tokens[0])] + Kept(tokens[1..])
    else Kept(tokens[1..])
  }

  /** Every word, redirection operator and body appears once, in order, and no run is empty. */
  lemma GroupingIsLossless(tokens: seq<Token>)
    ensures Contents(Groups(tokens)) == Kept(tokens)
    ensures forall g :: g in Groups(tokens) && g.Run? ==> g.words != []
  {
    LosslessAfter([], tokens);
    assert Parts([]) + Kept(tokens) == Kept(tokens);
  }

  lemma {:induction false} LosslessAfter(current: seq<string>, tokens: seq<Token>)
    ensures Contents(GroupsAfter(current, tokens)) == Parts(current) + Kept(tokens)
    ensures forall g :: g in GroupsAfter(current, tokens) && g.Run? ==> g.words != []
    decreases |tokens|
  {
    if tokens == [] {
      ContentsOfRun(current, []);
      assert RunOf(current) + [] == RunOf(current);
    } else {
      var rest := tokens[1..];
      match RoleOf(tokens[0])
      case Cut =>
        LosslessAfter([], rest);
        ContentsOfRun(current, Groups(rest));
        assert Parts([]) + Kept(rest) == Kept(rest);
      case Alone(id) =>
        LosslessAfter([], rest);
        ContentsOfRun(current, [Body(id)] + Groups(rest));
        ContentsCons(Body(id), Groups(rest));
        assert Parts([]) + Kept(rest) == Kept(rest);
      case Part(text) =>
        LosslessAfter(current + [text], rest);
        assert Parts(current + [text]) == Parts(current) + [Part(text)];
        Associates(Parts(current), [Part(text)], Kept(rest));
      case Ignored =>
        LosslessAfter(current, rest);
    }
  }

  lemma ContentsCons(group: Group, groups: seq<Group>)
    ensures Contents([group] + groups) == ContentsOf(group) + Contents(groups)
  {
    assert ([group] + groups)[1..] == groups;
  }

  lemma ContentsOfRun(words: seq<string>, groups: seq<Group>)
    ensures Contents(RunOf(words) + groups) == Parts(words) + Contents(groups)
  {
    if words == [] {
      assert RunOf(words) + groups == groups && Parts(words) + Contents(groups) == Contents(groups);
    } else {
      ContentsCons(Run(words), groups);
    }
  }

  /**
   * A command without text, on which restoring its placeholders throws, arises exactly
   * when a word of the input names a body that was never stored.
   */
  lemma UnknownBodyThrows(tokens: seq<Token>, subshells: seq<string>)
    ensures None in Commands(Groups(tokens), subshells)
       <==> exists t :: t in tokens && RoleOf(t).Alone? && RoleOf(t).id >= |subshells|
  {
    GroupingIsLossless(tokens);
    ThrowsByContents(Groups(tokens), subshells);
    KeptHas(tokens, subshells);
  }

  ghost predicate NamesUnknown(roles: seq<Role>, subshells: seq<string>) {
    exists i :: 0 <= i < |roles| && roles[i].Alone? && roles[i].id >= |subshells|
  }

  lemma {:induction false} ThrowsByContents(groups: seq<Group>, subshells: seq<string>)
    ensures None in Commands(groups, subshells) <==> NamesUnknown(Contents(groups), subshells)
  {
    if groups != [] {
      ThrowsByContents(groups[1..], subshells);
      UnknownAppend(ContentsOf(groups[0]), Contents(groups[1..]), subshells);
      if groups[0].Body? { assert ContentsOf(groups[0])[0] == Alone(groups[0].id); }
      var commands := Commands(groups, subshells);
      assert commands == [CommandOf(groups[0], subshells)] + Commands(groups[1..], subshells);
    }
  }

  lemma UnknownAppend(a: seq<Role>, b: seq<Role>, subshells: seq<string>)
    ensures NamesUnknown(a + b, subshells) <==> NamesUnknown(a, subshells) || NamesUnknown(b, subshells)
  {
    if NamesUnknown(a, subshells) {
      var i :| 0 <= i < |a| && a[i].Alone? && a[i].id >= |subshells|;
      assert (a + b)[i] == a[i];
    }
    if NamesUnknown(b, subshells) {
      var i :| 0 <= i < |b| && b[i].Alone? && b[i].id >= |subshells|;
      assert (a + b)[|a| + i] == b[i];
    }
  }

  lemma {:induction false} KeptHas(tokens: seq<Token>, subshells: seq<string>)
    ensures NamesUnknown(Kept(tokens), subshells)
       <==> exists t :: t in tokens && RoleOf(t).Alone? && RoleOf(t).id >= |subshells|
  {
    if tokens != [] {
      KeptHas(tokens[1..], subshells);
      var role := RoleOf(tokens[0]);
      var first := if role.Part? || role.Alone? then [role] else [];
      UnknownAppend(first, Kept(tokens[1..]), subshells);
      if role.Alone? { assert first[0] == role; }
      assert forall t :: t in tokens <==> t == tokens[0] || t in tokens[1..];
    }
  }

  // ---------------------------------------------------------------- tokens as they are written

  /** Each of the five chain operators ends a command, and leaves nothing behind. */
  lemma ChainOperatorSplits(a: seq<Token>, op: string, b: seq<Token>)
    requires op == "&&" || op == "||" || op == ";" || op == "|" || op == "&"
    ensures Groups(a + ([Operator(op)] + b)) == Groups(a) + Groups(b)
  {
    SplitsAtSeparator(a, Operator(op), b);
    assert [] + Groups(b) == Groups(b);
  }

  /** So does a placeholder standing for itself, whose body is a command of its own. */
  lemma PlaceholderSplits(a: seq<Token>, id: nat, b: seq<Token>)
    ensures Groups(a + ([Word("__SUBSH_" + Decimal(id) + "__")] + b)) == Groups(a) + ([Body(id)] + Groups(b))
  {
    PlaceholderIsRead(id);
    SplitsAtSeparator(a, Word(SubshellPlaceholder(id)), b);
  }

  /** Words that do not begin like a placeholder, and all other operators, are the words of one command. */
  lemma OthersAreWords(tokens: seq<Token>, words: seq<string>)
    requires |tokens| == |words|
    requires forall i :: 0 <= i < |tokens| ==>
      || (tokens[i] == Word(words[i]) && !("__SUBSH_" <= words[i]))
      || (tokens[i] == Operator(words[i]) && words[i] != "&&" && words[i] != "||" && words[i] != ";" && words[i] != "|" && words[i] != "&")
    ensures Groups(tokens) == if words == [] then [] else [Run(words)]
  {
    forall i | 0 <= i < |tokens| ensures RoleOf(tokens[i]) == Part(words[i]) {
      assert |words[i]| > 10 && words[i][..8] == "__SUBSH_" ==> "__SUBSH_" <= words[i];
    }
    OneRun(tokens);
    WordsOf(tokens, words);
  }

  lemma {:induction false} WordsOf(tokens: seq<Token>, words: seq<string>)
    requires |tokens| == |words| && forall i :: 0 <= i < |tokens| ==> RoleOf(tokens[i]) == Part(words[i])
    ensures Words(tokens) == words
  {
    if tokens != [] {
      WordsOf(tokens[1..], words[1..]);
      assert words == [words[0]] + words[1..];
    }
  }

  /** The words of a command have one blank between them. */
  lemma WordsHaveABlankBetween(a: seq<string>, b: seq<string>, subshells: seq<string>)
    requires a != [] && b != []
    ensures CommandOf(Run(a), subshells).Some? && CommandOf(Run(b), subshells).Some?
    ensures CommandOf(Run(a + b), subshells)
         == Some(CommandOf(Run(a), subshells).value + " " + CommandOf(Run(b), subshells).value)
    ensures |a| == 1 ==> CommandOf(Run(a), subshells) == Some(a[0])
  {
    JoinAppend(a, b, " ");
  }

  /** Any other token, such as a comment, leaves no trace. */
  lemma OtherTokenIsDropped(a: seq<Token>, b: seq<Token>)
    ensures Groups(a + ([OtherToken] + b)) == Groups(a + b)
  {
    DroppedAfter([], a, b);
  }

  lemma {:induction false} DroppedAfter(current: seq<string>, a: seq<Token>, b: seq<Token>)
    ensures GroupsAfter(current, a + ([OtherToken] + b)) == GroupsAfter(current, a + b)
    decreases |a|
  {
    if a == [] {
      assert a + ([OtherToken] + b) == [OtherToken] + b && a + b == b;
    } else {
      assert (a + ([OtherToken] + b))[1..] == a[1..] + ([OtherToken] + b) && (a + b)[1..] == a[1..] + b;
      match RoleOf(a[0])
      case Part(text) => DroppedAfter(current + [text], a[1..], b);
      case Ignored => DroppedAfter(current, a[1..], b);
      case _ => DroppedAfter([], a[1..], b);
    }
  }
}
