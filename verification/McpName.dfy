/**
 * Names of MCP tools: sanitizing, building, undoing a model's mangling, and parsing
 * (src/utils/mcp-name.ts).
 */
module McpName {
  import opened Text

  const SEPARATOR: string := "--"
  const PREFIX: string := "mcp"
  const HYPHEN_ENCODING: string := "___"
  const PLACEHOLDER: string := ['\0'] + "HYPHEN" + ['\0']
  const MAX_LENGTH: nat := 64

  predicate IsLetter(c: char) {
    'a' <= c <= 'z' || 'A' <= c <= 'Z'
  }

  predicate IsAlphanumeric(c: char) {
    IsLetter(c) || '0' <= c <= '9'
  }

  predicate IsAllowed(c: char) {
    IsAlphanumeric(c) || c == '_' || c == '-'
  }

  // ---------------------------------------------------------------- the code

  /** Each run of spaces becomes one underscore. */
  function SpacesToUnderscores(s: string): string {
    if s == "" then ""
    else if IsSpace(s[0]) then
      (if |s| > 1 && IsSpace(s[1]) then "" else "_") + SpacesToUnderscores(s[1..])
    else [s[0]] + SpacesToUnderscores(s[1..])
  }

  function OnlyAllowed(s: string): string {
    if s == "" then "" else (if IsAllowed(s[0]) then [s[0]] else "") + OnlyAllowed(s[1..])
  }

  /** Each run of hyphens becomes one hyphen. */
  function CollapseHyphens(s: string): string {
    if s == "" then ""
    else if s[0] == '-' && |s| > 1 && s[1] == '-' then CollapseHyphens(s[1..])
    else [s[0]] + CollapseHyphens(s[1..])
  }

  function EncodeHyphens(s: string): string {
    ReplaceAll(s, "-", HYPHEN_ENCODING)
  }

  function Sanitize(name: string): string {
    if name == "" then "_"
    else
      var encoded := EncodeHyphens(CollapseHyphens(OnlyAllowed(SpacesToUnderscores(name))));
      var led := if encoded != "" && !IsLetter(encoded[0]) && encoded[0] != '_' then "_" + encoded else encoded;
      if led == "" then "_unnamed" else led
  }

  function FullName(server: string, tool: string): string {
    PREFIX + SEPARATOR + Sanitize(server) + SEPARATOR + Sanitize(tool)
  }

  function Build(server: string, tool: string): string {
    var fullName := FullName(server, tool);
    if |fullName| > MAX_LENGTH then fullName[..MAX_LENGTH] else fullName
  }

  /** What a model does to a name: every hyphen becomes an underscore. */
  function Mangle(name: string): string {
    ReplaceAll(name, "-", "_")
  }

  function NormalizeToolName(toolName: string): string {
    if "mcp__" <= toolName then
      ReplaceAll(ReplaceAll(ReplaceAll(toolName, "___", PLACEHOLDER), "__", "--"), PLACEHOLDER, "___")
    else toolName
  }

  function Decode(name: string): string {
    ReplaceAll(name, HYPHEN_ENCODING, "-")
  }

  /** The first position of the separator, or the length. */
  function SeparatorIndex(s: string): (n: nat)
    ensures n <= |s|
  {
    if s == "" || SEPARATOR <= s then 0 else 1 + SeparatorIndex(s[1..])
  }

  function Parse(name: string): Option<(string, string)> {
    if !(PREFIX + SEPARATOR <= name) then None
    else
      var remainder := name[|PREFIX + SEPARATOR|..];
      var index := SeparatorIndex(remainder);
      if index == |remainder| then None
      else if !(SEPARATOR <= remainder[index..]) then None
      else
        var server, tool := remainder[..index], remainder[index + |SEPARATOR|..];
        if server == "" || tool == "" then None else Some((Decode(server), Decode(tool)))
  }

  // ---------------------------------------------------------------- sanitized names

  predicate HyphenFree(s: string) {
    forall i :: 0 <= i < |s| ==> s[i] != '-'
  }

  predicate AllAllowed(s: string) {
    forall i :: 0 <= i < |s| ==> IsAllowed(s[i])
  }

  /** Whatever the name, its sanitized form is a non-empty identifier without hyphens. */
  lemma SanitizedIsIdentifier(name: string)
    ensures var s := Sanitize(name);
      s != "" && HyphenFree(s) && AllAllowed(s) && (IsLetter(s[0]) || s[0] == '_')
  {
    var allowed := OnlyAllowed(SpacesToUnderscores(name));
    OnlyAllowedIsAllowed(SpacesToUnderscores(name));
    CollapsedIsAllowed(allowed);
    EncodedIsIdentifier(CollapseHyphens(allowed));
    LedIsIdentifier(EncodeHyphens(CollapseHyphens(allowed)));
  }

  lemma LedIsIdentifier(encoded: string)
    requires HyphenFree(encoded) && AllAllowed(encoded)
    ensures HyphenFree("_" + encoded) && AllAllowed("_" + encoded)
    ensures HyphenFree("_unnamed") && AllAllowed("_unnamed") && HyphenFree("_") && AllAllowed("_")
  {
  }

  /** And a built name keeps within the limit. */
  lemma BuiltIsShort(server: string, tool: string)
    ensures |Build(server, tool)| <= MAX_LENGTH
    ensures Build(server, tool) <= FullName(server, tool)
  {
  }

  lemma {:induction false} OnlyAllowedIsAllowed(s: string)
    ensures AllAllowed(OnlyAllowed(s))
  {
    if s != "" { OnlyAllowedIsAllowed(s[1..]); }
  }

  lemma {:induction false} CollapsedIsAllowed(s: string)
    requires AllAllowed(s)
    ensures AllAllowed(CollapseHyphens(s))
  {
    if s != "" { CollapsedIsAllowed(s[1..]); }
  }

  lemma EncodeStep(s: string)
    requires s != ""
    ensures EncodeHyphens(s) == (if s[0] == '-' then "___" else [s[0]]) + EncodeHyphens(s[1..])
  {
    assert "-" <= s <==> s[0] == '-';
  }

  lemma {:induction false} EncodedIsIdentifier(s: string)
    requires AllAllowed(s)
    ensures HyphenFree(EncodeHyphens(s)) && AllAllowed(EncodeHyphens(s))
  {
    if s != "" {
      EncodedIsIdentifier(s[1..]);
      EncodeStep(s);
    }
  }

  // ---------------------------------------------------------------- when decoding undoes sanitizing

  predicate Lacks(s: string, w: string) {
    forall i: nat :: i <= |s| ==> !(w <= s[i..])
  }

  /**
   * Names that survive: allowed characters only, not led by a digit, no two hyphens
   * together, no underscore before a hyphen, and no three underscores together.
   */
  predicate Survives(s: string) {
    s != "" && AllAllowed(s) && (IsLetter(s[0]) || s[0] == '_' || s[0] == '-')
    && Lacks(s, "--") && Lacks(s, "_-") && Lacks(s, "___")
  }

  /** Decoding undoes sanitizing on exactly these names. */
  lemma DecodeUndoesSanitize(name: string)
    ensures Decode(Sanitize(name)) == name <==> Survives(name)
  {
    if AllAllowed(name) && name != "" {
      AllowedIsUntouched(name);
      SanitizeAllowed(name);
      if IsAlphanumeric(name[0]) && !IsLetter(name[0]) {
        LedByDigit(name);
      } else {
        DecodeEncoded(name);
      }
    } else if name == "" {
      assert Decode("_") == "_";
    } else {
      SanitizedIsIdentifier(name);
      DecodedIsAllowed(Sanitize(name));
    }
  }

  lemma {:induction false} AllowedIsUntouched(s: string)
    requires AllAllowed(s)
    ensures OnlyAllowed(SpacesToUnderscores(s)) == s
  {
    if s != "" {
      assert IsAllowed(s[0]) && !IsSpace(s[0]);
      AllowedIsUntouched(s[1..]);
      assert s == [s[0]] + s[1..];
      assert SpacesToUnderscores(s)[1..] == SpacesToUnderscores(s[1..]);
    }
  }

  lemma SanitizeAllowed(name: string)
    requires name != "" && OnlyAllowed(SpacesToUnderscores(name)) == name && AllAllowed(name)
    ensures var encoded := EncodeHyphens(CollapseHyphens(name));
      encoded != "" && Sanitize(name) == if IsLetter(name[0]) || name[0] == '_' || name[0] == '-' then encoded else "_" + encoded
    ensures CollapseHyphens(name) != "" && CollapseHyphens(name)[0] == name[0]
  {
    CollapseKeepsFirst(name);
    EncodeStep(CollapseHyphens(name));
  }

  lemma {:induction false} CollapseKeepsFirst(s: string)
    requires s != ""
    ensures CollapseHyphens(s) != "" && CollapseHyphens(s)[0] == s[0] && |CollapseHyphens(s)| <= |s|
    ensures CollapseHyphens(s) == s <==> Lacks(s, "--")
    ensures |CollapseHyphens(s)| == |s| ==> CollapseHyphens(s) == s
  {
    LacksStep(s, "--");
    if |s| > 1 {
      CollapseKeepsFirst(s[1..]);
      assert s == [s[0]] + s[1..];
    } else {
      assert CollapseHyphens(s[1..]) == "" && s == [s[0]];
      assert Lacks("", "--");
    }
  }

  lemma LacksStep(s: string, w: string)
    requires s != ""
    ensures Lacks(s, w) <==> !(w <= s) && Lacks(s[1..], w)
  {
    assert s[0..] == s;
    if !(w <= s) && Lacks(s[1..], w) {
      forall i: nat | i <= |s| ensures !(w <= s[i..]) {
        if i > 0 { assert s[i..] == s[1..][i - 1..]; }
      }
    }
    if Lacks(s, w) {
      forall i: nat | i <= |s[1..]| ensures !(w <= s[1..][i..]) { assert s[1..][i..] == s[i + 1..]; }
    }
  }

  lemma {:induction false} DecodedIsAllowed(s: string)
    requires AllAllowed(s)
    ensures AllAllowed(Decode(s))
    decreases |s|
  {
    if s != "" {
      if "___" <= s { DecodedIsAllowed(s[3..]); } else { DecodedIsAllowed(s[1..]); }
    }
  }

  lemma LedByDigit(name: string)
    requires name != "" && IsAlphanumeric(name[0]) && !IsLetter(name[0])
    requires Sanitize(name) != "" && Sanitize(name)[0] == '_' && |Sanitize(name)| > 1 && Sanitize(name)[1] == name[0]
    ensures Decode(Sanitize(name)) != name
  {
    assert !("___" <= Sanitize(name));
  }

  lemma DecodeEncoded(name: string)
    requires name != ""
    ensures Decode(EncodeHyphens(CollapseHyphens(name))) == name <==> Lacks(name, "--") && Lacks(name, "_-") && Lacks(name, "___")
  {
    CollapseKeepsFirst(name);
    DecodedIsNotLonger(CollapseHyphens(name));
    if Lacks(name, "--") { DecodeEncodedSingle(name); }
  }

  /** Decoding what was encoded, one character at a time. */
  lemma DecodeStep(c: string)
    requires c != ""
    ensures var d, r := Decode(EncodeHyphens(c)), c[1..];
      && (c[0] == '-' ==> d == "-" + Decode(EncodeHyphens(r)))
      && (c[0] == '_' && "-" <= r ==> d == "-" + Decode(EncodeHyphens("_" + r[1..])))
      && (c[0] == '_' && "__" <= r ==> d == "-" + Decode(EncodeHyphens(r[2..])))
      && (c[0] == '_' && "_-" <= r ==> d == "-" + Decode(EncodeHyphens("__" + r[2..])))
      && (c[0] != '-' && !(c[0] == '_' && ("-" <= r || "__" <= r || "_-" <= r)) ==> d == [c[0]] + Decode(EncodeHyphens(r)))
  {
    var r := c[1..];
    EncodeStep(c);
    if c[0] == '-' {
      ReplaceHit(EncodeHyphens(r), "___", "-");
    } else if c[0] == '_' && "-" <= r {
      EncodeStep(r);
      EncodeStep("_" + r[1..]);
      assert ("_" + r[1..])[1..] == r[1..];
      assert EncodeHyphens(c) == "___" + ("_" + EncodeHyphens(r[1..]));
      ReplaceHit("_" + EncodeHyphens(r[1..]), "___", "-");
    } else if c[0] == '_' && "_" <= r {
      EncodeUnderscoreNext(c);
    } else {
      EncodedBegins(r);
      var e := EncodeHyphens(c);
      assert e[0] == c[0] && e[1..] == EncodeHyphens(r);
      if c[0] == '_' && r != "" { assert e[1] == EncodeHyphens(r)[0] == r[0] != '_'; }
    }
  }

  lemma EncodeUnderscoreNext(c: string)
    requires |c| >= 2 && c[0] == '_' && c[1] == '_'
    ensures var d, r := Decode(EncodeHyphens(c)), c[1..];
      && ("__" <= r ==> d == "-" + Decode(EncodeHyphens(r[2..])))
      && ("_-" <= r ==> d == "-" + Decode(EncodeHyphens("__" + r[2..])))
      && (!("__" <= r) && !("_-" <= r) ==> d == "_" + Decode(EncodeHyphens(r)))
  {
    var r := c[1..];
    var u := r[1..];
    EncodeStep(c);
    EncodeStep(r);
    assert EncodeHyphens(c) == "__" + EncodeHyphens(u);
    if "__" <= r {
      EncodeStep(u);
      assert u[1..] == r[2..];
      assert EncodeHyphens(c) == "___" + EncodeHyphens(u[1..]);
      ReplaceHit(EncodeHyphens(u[1..]), "___", "-");
    } else if "_-" <= r {
      EncodeStep(u);
      assert u[1..] == r[2..];
      var tail := "__" + r[2..];
      EncodeStep(tail);
      EncodeStep(tail[1..]);
      assert tail[1..][1..] == r[2..];
      assert EncodeHyphens(c) == "___" + ("__" + EncodeHyphens(r[2..]));
      assert EncodeHyphens(tail) == "__" + EncodeHyphens(r[2..]);
      ReplaceHit("__" + EncodeHyphens(r[2..]), "___", "-");
    } else {
      EncodedBegins(u);
      assert u == "" || (u[0] != '_' && u[0] != '-');
      var e := EncodeHyphens(c);
      if u != "" { assert e[2] == EncodeHyphens(u)[0] == u[0]; }
      assert e[1..] == EncodeHyphens(r);
    }
  }

  /** An encoded name begins with an underscore only if the name begins with an underscore or a hyphen. */
  lemma EncodedBegins(s: string)
    ensures EncodeHyphens(s) == "" <==> s == ""
    ensures s != "" && s[0] != '-' ==> EncodeHyphens(s)[0] == s[0]
  {
    if s != "" { EncodeStep(s); }
  }

  lemma {:induction false} DecodedIsNotLonger(c: string)
    ensures |Decode(EncodeHyphens(c))| <= |c|
    decreases |c|
  {
    if c != "" {
      DecodeStep(c);
      var r := c[1..];
      if c[0] == '_' && "-" <= r {
        DecodedIsNotLonger("_" + r[1..]);
      } else if c[0] == '_' && "__" <= r {
        DecodedIsNotLonger(r[2..]);
      } else if c[0] == '_' && "_-" <= r {
        DecodedIsNotLonger("__" + r[2..]);
      } else {
        DecodedIsNotLonger(r);
      }
    }
  }

  lemma PrefixStep(a: char, p: string, c: string)
    requires c != ""
    ensures [a] + p <= c <==> c[0] == a && p <= c[1..]
  {
    assert ([a] + p)[1..] == p;
    if c[0] == a && p <= c[1..] {
      assert c[1..][..|p|] == p;
      assert c[..1 + |p|] == [a] + p;
    }
    if [a] + p <= c { PrefixRest([a] + p, c); }
  }

  lemma LacksSteps(c: string)
    requires c != ""
    ensures var r := c[1..];
      && (Lacks(c, "--") ==> Lacks(r, "--") && !(c[0] == '-' && "-" <= r))
      && (Lacks(c, "_-") <==> Lacks(r, "_-") && !(c[0] == '_' && "-" <= r))
      && (Lacks(c, "___") <==> Lacks(r, "___") && !(c[0] == '_' && "__" <= r))
  {
    LacksStep(c, "--");
    LacksStep(c, "_-");
    LacksStep(c, "___");
    PrefixStep('-', "-", c);
    PrefixStep('_', "-", c);
    PrefixStep('_', "__", c);
    assert "--" == ['-'] + "-" && "_-" == ['_'] + "-" && "___" == ['_'] + "__";
  }

  lemma LacksNext(r: string)
    ensures "_-" <= r ==> !Lacks(r, "_-")
  {
    assert r[0..] == r;
  }

  lemma {:induction false} DecodeEncodedSingle(c: string)
    requires Lacks(c, "--")
    ensures Decode(EncodeHyphens(c)) == c <==> Lacks(c, "_-") && Lacks(c, "___")
    decreases |c|
  {
    if c != "" {
      var r := c[1..];
      LacksSteps(c);
      DecodeStep(c);
      DecodeEncodedSingle(r);
      assert c == [c[0]] + r;
      var d := Decode(EncodeHyphens(c));
      if c[0] == '_' && ("-" <= r || "__" <= r || "_-" <= r) {
        assert d[0] == '-';
        LacksNext(r);
      } else {
        assert d == [c[0]] + Decode(EncodeHyphens(r)) && d[1..] == Decode(EncodeHyphens(r));
      }
    }
  }

  // ---------------------------------------------------------------- normalising a mangled name

  /** Normalising in one pass: three underscores stay, two become the separator, one stays. */
  function OnePass(s: string): string
    decreases |s|
  {
    if s == "" then ""
    else if "___" <= s then "___" + OnePass(s[3..])
    else if "__" <= s then "--" + OnePass(s[2..])
    else [s[0]] + OnePass(s[1..])
  }

  /** The text has nothing that reads as the placeholder, or as its beginning before three underscores. */
  predicate LacksPlaceholder(s: string) {
    Lacks(s, FAKE + ['\0']) && Lacks(s, FAKE + "___")
  }

  const FAKE: string := ['\0'] + "HYPHEN"

  /** The three replacements through a placeholder are that single pass exactly on such texts. */
  lemma NormalizeIsOnePass(s: string)
    requires "mcp__" <= s
    ensures NormalizeToolName(s) == OnePass(s) <==> LacksPlaceholder(s)
  {
    ThreePasses(s);
  }

  /** The text after the first two replacements. */
  function TwoPasses(s: string): string {
    ReplaceAll(ReplaceAll(s, "___", PLACEHOLDER), "__", "--")
  }

  lemma {:induction false} ThreePasses(s: string)
    ensures ReplaceAll(TwoPasses(s), PLACEHOLDER, "___") == OnePass(s) <==> LacksPlaceholder(s)
    decreases |s|
  {
    if s == "" {
    } else if "___" <= s {
      ThreePasses(s[3..]);
      ThreePassesTriple(s);
    } else if "__" <= s {
      ThreePasses(s[2..]);
      ThreePassesPair(s);
    } else {
      ThreePasses(s[1..]);
      ThreePassesSingle(s);
    }
  }

  lemma ThreePassesTriple(s: string)
    requires "___" <= s && (ReplaceAll(TwoPasses(s[3..]), PLACEHOLDER, "___") == OnePass(s[3..]) <==> LacksPlaceholder(s[3..]))
    ensures ReplaceAll(TwoPasses(s), PLACEHOLDER, "___") == OnePass(s) <==> LacksPlaceholder(s)
  {
    TripleStep(s);
    ReplaceHit(TwoPasses(s[3..]), PLACEHOLDER, "___");
    LacksAfter(s, 3);
    SameTail("___", ReplaceAll(TwoPasses(s[3..]), PLACEHOLDER, "___"), OnePass(s[3..]));
  }

  lemma ThreePassesPair(s: string)
    requires "__" <= s && !("___" <= s)
    requires ReplaceAll(TwoPasses(s[2..]), PLACEHOLDER, "___") == OnePass(s[2..]) <==> LacksPlaceholder(s[2..])
    ensures ReplaceAll(TwoPasses(s), PLACEHOLDER, "___") == OnePass(s) <==> LacksPlaceholder(s)
  {
    DoubleStep(s);
    forall i | 0 <= i < 2 ensures !(PLACEHOLDER <= "--"[i..] + TwoPasses(s[2..])) {
      assert ("--"[i..] + TwoPasses(s[2..]))[0] == '-';
    }
    ReplaceSkips("--", TwoPasses(s[2..]), PLACEHOLDER, "___");
    LacksAfter(s, 2);
    SameTail("--", ReplaceAll(TwoPasses(s[2..]), PLACEHOLDER, "___"), OnePass(s[2..]));
  }

  lemma ThreePassesSingle(s: string)
    requires s != "" && !("__" <= s) && !("___" <= s)
    requires ReplaceAll(TwoPasses(s[1..]), PLACEHOLDER, "___") == OnePass(s[1..]) <==> LacksPlaceholder(s[1..])
    ensures ReplaceAll(TwoPasses(s), PLACEHOLDER, "___") == OnePass(s) <==> LacksPlaceholder(s)
  {
    SingleStep(s);
    PlaceholderShows(s);
    SingleReplaced(s[0], TwoPasses(s[1..]));
    LacksStep(s, FAKE + ['\0']);
    LacksStep(s, FAKE + "___");
    SameTail([s[0]], ReplaceAll(TwoPasses(s[1..]), PLACEHOLDER, "___"), OnePass(s[1..]));
  }

  lemma SameTail(a: string, x: string, y: string)
    ensures a + x == a + y <==> x == y
  {
    assert (a + x)[|a|..] == x && (a + y)[|a|..] == y;
  }

  /** Underscores in front do not matter for what begins with the placeholder's first character. */
  lemma {:induction false} LacksAfter(s: string, n: nat)
    requires n <= |s| && forall i :: 0 <= i < n ==> s[i] == '_'
    ensures LacksPlaceholder(s) <==> LacksPlaceholder(s[n..])
  {
    if n == 0 {
      assert s[0..] == s;
    } else {
      LacksStep(s, FAKE + ['\0']);
      LacksStep(s, FAKE + "___");
      assert (FAKE + ['\0'])[0] == '\0' && (FAKE + "___")[0] == '\0';
      assert s[1..][n - 1..] == s[n..];
      LacksAfter(s[1..], n - 1);
    }
  }

  /** A single character is replaced, with what follows, exactly if the placeholder begins there. */
  lemma SingleReplaced(c: char, x: string)
    ensures var r := ReplaceAll([c] + x, PLACEHOLDER, "___");
      if PLACEHOLDER <= [c] + x then r != "" && r[0] == '_' else r == [c] + ReplaceAll(x, PLACEHOLDER, "___")
  {
    assert ([c] + x)[1..] == x;
  }

  /** The placeholder begins at a single character exactly if the text has it or fakes it there. */
  lemma PlaceholderShows(s: string)
    requires s != "" && !("__" <= s)
    ensures PLACEHOLDER <= [s[0]] + TwoPasses(s[1..]) <==> FAKE + ['\0'] <= s || FAKE + "___" <= s
    ensures PLACEHOLDER <= [s[0]] + TwoPasses(s[1..]) ==> s[0] == '\0'
  {
    var t := s[1..];
    assert s == [s[0]] + t;
    PrefixOfCons('\0', "HYPHEN" + ['\0'], s[0], TwoPasses(t));
    PrefixOfCons('\0', "HYPHEN" + ['\0'], s[0], t);
    PrefixOfCons('\0', "HYPHEN" + "___", s[0], t);
    assert PLACEHOLDER == ['\0'] + ("HYPHEN" + ['\0']) == FAKE + ['\0'];
    assert FAKE + "___" == ['\0'] + ("HYPHEN" + "___");
    LettersShow("HYPHEN", t);
  }

  lemma PrefixOfCons(c: char, w: string, d: char, x: string)
    ensures [c] + w <= [d] + x <==> c == d && w <= x
  {
    assert ([d] + x)[1..] == x;
    if [c] + w <= [d] + x {
      PrefixRest([c] + w, [d] + x);
      assert ([c] + w)[1..] == w;
    }
    if w <= x {
      assert x == w + x[|w|..];
    }
  }

  /** Letters stay what they are in the first two replacements. */
  lemma {:induction false} LettersShow(letters: string, t: string)
    requires forall i :: 0 <= i < |letters| ==> IsLetter(letters[i])
    ensures letters + ['\0'] <= TwoPasses(t) <==> letters + ['\0'] <= t || letters + "___" <= t
  {
    if letters == "" {
      assert "" + ['\0'] == ['\0'] && "" + "___" == "___";
      FirstOfTwoPasses(t);
    } else {
      FirstOfTwoPasses(t);
      if t != "" && t[0] == letters[0] {
        SingleStep(t);
        LettersShow(letters[1..], t[1..]);
        var c, rest := letters[0], letters[1..];
        assert letters == [c] + rest && t == [c] + t[1..];
        Associates([c], rest, ['\0']);
        Associates([c], rest, "___");
        PrefixOfCons(c, rest + ['\0'], c, TwoPasses(t[1..]));
        PrefixOfCons(c, rest + ['\0'], c, t[1..]);
        PrefixOfCons(c, rest + "___", c, t[1..]);
      } else {
        assert (letters + ['\0'])[0] == letters[0] && (letters + "___")[0] == letters[0];
      }
    }
  }

  lemma FirstOfTwoPasses(t: string)
    ensures t == "" ==> TwoPasses(t) == ""
    ensures t != "" ==> TwoPasses(t) != "" && TwoPasses(t)[0] == if "___" <= t then '\0' else if "__" <= t then '-' else t[0]
  {
    if "___" <= t {
      TripleStep(t);
    } else if "__" <= t {
      DoubleStep(t);
    } else if t != "" {
      SingleStep(t);
    }
  }

  lemma TripleStep(s: string)
    requires "___" <= s
    ensures TwoPasses(s) == PLACEHOLDER + TwoPasses(s[3..])
  {
    var x := ReplaceAll(s[3..], "___", PLACEHOLDER);
    forall i | 0 <= i < |PLACEHOLDER| ensures !("__" <= PLACEHOLDER[i..] + x) {
      assert (PLACEHOLDER[i..] + x)[0] == PLACEHOLDER[i] != '_';
    }
    ReplaceSkips(PLACEHOLDER, x, "__", "--");
  }

  lemma DoubleStep(s: string)
    requires "__" <= s && !("___" <= s)
    ensures TwoPasses(s) == "--" + TwoPasses(s[2..])
  {
    var x := ReplaceAll(s[2..], "___", PLACEHOLDER);
    assert s[1..][1..] == s[2..];
    assert |s| > 2 ==> s[1..][1] == s[2] && s[2] != '_';
    assert ReplaceAll(s, "___", PLACEHOLDER) == "_" + ("_" + x) == "__" + x;
    ReplaceHit(x, "__", "--");
  }

  lemma SingleStep(s: string)
    requires s != "" && !("__" <= s)
    ensures TwoPasses(s) == [s[0]] + TwoPasses(s[1..])
  {
    var x := ReplaceAll(s[1..], "___", PLACEHOLDER);
    assert ReplaceAll(s, "___", PLACEHOLDER) == [s[0]] + x;
    if s[0] == '_' && |s| > 1 {
      FirstOfReplaced(s[1..]);
    }
    assert ([s[0]] + x)[1..] == x;
  }

  lemma FirstOfReplaced(s: string)
    requires s != "" && s[0] != '_'
    ensures ReplaceAll(s, "___", PLACEHOLDER) != "" && ReplaceAll(s, "___", PLACEHOLDER)[0] == s[0]
  {
  }

  // ---------------------------------------------------------------- the whole flow

  /** Names that survive mangling too: they begin with a letter and have no two underscores together. */
  predicate SurvivesMangling(s: string) {
    s != "" && AllAllowed(s) && IsLetter(s[0]) && Lacks(s, "--") && Lacks(s, "_-") && Lacks(s, "__")
  }

  /** And a server name must not end in an underscore, since the separator follows it. */
  predicate Recoverable(server: string, tool: string) {
    SurvivesMangling(server) && server[|server| - 1] != '_' && SurvivesMangling(tool)
  }

  /** What comes back after building, mangling, normalising and parsing. */
  function Returned(server: string, tool: string): Option<(string, string)> {
    Parse(NormalizeToolName(Mangle(Build(server, tool))))
  }

  /**
   * A cut name comes back in one case only: one character too many, after a tool's name
   * that ends in two hyphens. They are built into three underscores, of which two stay.
   */
  predicate RecoverableCut(server: string, tool: string) {
    && |FullName(server, tool)| == MAX_LENGTH + 1
    && |tool| > 2 && tool[|tool| - 2..] == "--" && IsAlphanumeric(tool[|tool| - 3])
    && Recoverable(server, tool[..|tool| - 2])
  }

  predicate ComesBack(server: string, tool: string) {
    if |FullName(server, tool)| <= MAX_LENGTH then Recoverable(server, tool) else RecoverableCut(server, tool)
  }

  /** Of all names, whatever the server and the tool, exactly these come back. */
  lemma MangledNamesAreRecovered(server: string, tool: string)
    ensures Returned(server, tool) == Some((server, tool)) <==> ComesBack(server, tool)
  {
    if |FullName(server, tool)| <= MAX_LENGTH {
      ShortNamesAreRecovered(server, tool);
    } else {
      CutNamesAreRecovered(server, tool);
    }
  }

  /** Of all names whose full name is not cut, exactly the recoverable ones come back. */
  lemma ShortNamesAreRecovered(server: string, tool: string)
    requires |FullName(server, tool)| <= MAX_LENGTH
    ensures Returned(server, tool) == Some((server, tool)) <==> Recoverable(server, tool)
  {
    if Recoverable(server, tool) {
      NormalizedForm(server, tool);
      SanitizeClean(server);
      SanitizeClean(tool);
      SeparatedIsParsed(server, tool);
    }
    if Returned(server, tool) == Some((server, tool)) {
      RecoveredIsRecoverable(server, tool);
    }
  }

  lemma SeparatedIsParsed(server: string, tool: string)
    requires SurvivesMangling(server) && SurvivesMangling(tool) && server[|server| - 1] != '_'
    ensures Parse(OnePass("mcp__" + (EncodeHyphens(server) + ("__" + EncodeHyphens(tool))))) == Some((server, tool))
  {
    EncodedIsIdentifier(server);
    EncodedBegins(server);
    EncodedBegins(tool);
    OnePassOfMangled(server, tool);
    ParseBuilt(EncodeHyphens(server), EncodeHyphens(tool));
    DecodeClean(server);
    DecodeClean(tool);
  }

  /** Between the prefix and the tool stand the two sanitized names with the mangled separator. */
  lemma NormalizedForm(server: string, tool: string)
    requires |FullName(server, tool)| <= MAX_LENGTH
    ensures NormalizeToolName(Mangle(Build(server, tool))) == OnePass("mcp__" + (Sanitize(server) + ("__" + Sanitize(tool))))
    ensures HyphenFree(Sanitize(server)) && AllAllowed(Sanitize(server)) && Sanitize(server) != ""
    ensures HyphenFree(Sanitize(tool)) && AllAllowed(Sanitize(tool)) && Sanitize(tool) != ""
  {
    SanitizedIsIdentifier(server);
    SanitizedIsIdentifier(tool);
    FullNameIs(server, tool);
    NormalizedIs(Sanitize(server), Sanitize(tool));
  }

  lemma FullNameIs(server: string, tool: string)
    ensures FullName(server, tool) == "mcp" + "--" + Sanitize(server) + "--" + Sanitize(tool)
  {
  }

  lemma NormalizedIs(s: string, t: string)
    requires HyphenFree(s) && HyphenFree(t) && AllAllowed(s) && AllAllowed(t)
    ensures NormalizeToolName(Mangle("mcp" + "--" + s + "--" + t)) == OnePass("mcp__" + (s + ("__" + t)))
  {
    MangleFullName(s, t);
    AllowedLacksPlaceholder("mcp__" + (s + ("__" + t)));
    NormalizeIsOnePass("mcp__" + (s + ("__" + t)));
  }

  lemma AllowedLacksPlaceholder(s: string)
    requires AllAllowed(s)
    ensures LacksPlaceholder(s)
  {
    forall i: nat | i <= |s| ensures !(FAKE + ['\0'] <= s[i..]) && !(FAKE + "___" <= s[i..]) {
      assert i < |s| ==> s[i..][0] == s[i] != '\0';
      assert (FAKE + ['\0'])[0] == '\0' && (FAKE + "___")[0] == '\0';
    }
  }

  /** So two different pairs of such names are never built into the same name. */
  lemma BuildIsInjective(server: string, tool: string, server': string, tool': string)
    requires ComesBack(server, tool) && ComesBack(server', tool')
    requires Build(server, tool) == Build(server', tool')
    ensures server == server' && tool == tool'
  {
    MangledNamesAreRecovered(server, tool);
    MangledNamesAreRecovered(server', tool');
  }

  lemma {:induction false} NoSeparator(s: string)
    requires HyphenFree(s)
    ensures SeparatorIndex(s) == |s|
  {
    if s != "" {
      assert s[0] != '-' && SEPARATOR[0] == '-';
      NoSeparator(s[1..]);
    }
  }

  lemma SanitizeClean(name: string)
    requires SurvivesMangling(name)
    ensures Sanitize(name) == EncodeHyphens(name)
  {
    AllowedIsUntouched(name);
    SanitizeAllowed(name);
    CollapseKeepsFirst(name);
  }

  lemma DecodeClean(name: string)
    requires SurvivesMangling(name)
    ensures Decode(EncodeHyphens(name)) == name
  {
    forall i: nat | i <= |name| ensures !("___" <= name[i..]) {
      assert !("__" <= name[i..]);
      assert "___"[..2] == "__";
    }
    DecodeEncodedSingle(name);
  }

  lemma {:induction false} MangleHyphenFree(s: string, rest: string)
    requires HyphenFree(s)
    ensures Mangle(s + rest) == s + Mangle(rest)
  {
    forall i | 0 <= i < |s| ensures !("-" <= s[i..] + rest) { assert (s[i..] + rest)[0] == s[i]; }
    ReplaceSkips(s, rest, "-", "_");
  }

  lemma MangleFullName(s: string, t: string)
    requires HyphenFree(s) && HyphenFree(t)
    ensures Mangle("mcp" + "--" + s + "--" + t) == "mcp__" + (s + ("__" + t))
  {
    assert "mcp" + "--" + s + "--" + t == "mcp" + ("--" + (s + ("--" + t)));
    MangleHyphenFree("mcp", "--" + (s + ("--" + t)));
    MangleTwo(s + ("--" + t));
    MangleHyphenFree(s, "--" + t);
    MangleTwo(t);
    MangleHyphenFree(t, "");
    assert t + "" == t;
    assert "mcp" + ("__" + (s + ("__" + t))) == "mcp__" + (s + ("__" + t));
  }

  lemma MangleTwo(rest: string)
    ensures Mangle("--" + rest) == "__" + Mangle(rest)
  {
    assert "--" + rest == "-" + ("-" + rest);
    ReplaceHit("-" + rest, "-", "_");
    ReplaceHit(rest, "-", "_");
  }

  /** A clean name passes through normalising unchanged, if what follows does not lengthen its last run. */
  lemma {:induction false} CleanPasses(name: string, rest: string)
    requires Lacks(name, "_-") && Lacks(name, "__")
    requires name != "" && name[|name| - 1] == '_' ==> rest == "" || rest[0] != '_'
    ensures OnePass(EncodeHyphens(name) + rest) == EncodeHyphens(name) + OnePass(rest)
  {
    if name == "" {
      assert EncodeHyphens(name) + rest == rest;
    } else {
      var tail := name[1..];
      LacksStep(name, "_-");
      LacksStep(name, "__");
      CleanPasses(tail, rest);
      EncodeStep(name);
      if name[0] == '-' {
        PassesTriple(EncodeHyphens(tail), rest);
      } else {
        EncodedBegins(tail);
        assert tail != "" ==> EncodeHyphens(tail)[0] == tail[0] || tail[0] == '-';
        PassesSingle(name[0], EncodeHyphens(tail), rest);
      }
    }
  }

  lemma PassesTriple(e: string, rest: string)
    requires OnePass(e + rest) == e + OnePass(rest)
    ensures OnePass("___" + e + rest) == "___" + e + OnePass(rest)
  {
    Associates("___", e, rest);
    Associates("___", e, OnePass(rest));
    assert ("___" + (e + rest))[3..] == e + rest;
  }

  lemma PassesSingle(c: char, e: string, rest: string)
    requires OnePass(e + rest) == e + OnePass(rest)
    requires c == '_' ==> e + rest == "" || (e + rest)[0] != '_'
    ensures OnePass([c] + e + rest) == [c] + e + OnePass(rest)
  {
    var x := e + rest;
    var y := [c] + x;
    assert [c] + e + rest == y;
    assert y[1..] == x && y[0] == c && (x != "" ==> y[1] == x[0]);
    assert !("__" <= y);
    Associates([c], e, OnePass(rest));
  }

  lemma OnePassOfMangled(server: string, tool: string)
    requires SurvivesMangling(server) && SurvivesMangling(tool) && server[|server| - 1] != '_'
    ensures var s, t := EncodeHyphens(server), EncodeHyphens(tool);
      OnePass("mcp__" + (s + ("__" + t))) == "mcp--" + (s + ("--" + t))
  {
    var s, t := EncodeHyphens(server), EncodeHyphens(tool);
    EncodedBegins(server);
    EncodedBegins(tool);
    var b := "__" + t;
    OnePassSeparator(t);
    CleanPasses(tool, "");
    assert t + "" == t;
    CleanPasses(server, b);
    OnePassSeparator(s + b);
    OnePassLetters(s + b);
    Associates("mcp", "--", s + ("--" + t));
    assert "mcp" + "--" == "mcp--";
  }

  lemma OnePassSeparator(rest: string)
    requires rest == "" || rest[0] != '_'
    ensures OnePass("__" + rest) == "--" + OnePass(rest)
  {
    assert ("__" + rest)[2..] == rest;
    assert rest != "" ==> ("__" + rest)[2] == rest[0];
  }

  lemma OnePassLetters(rest: string)
    ensures OnePass("mcp__" + rest) == "mcp" + OnePass("__" + rest)
  {
    PlainPasses("mcp", "__" + rest);
    assert "mcp__" == "mcp" + "__";
    Associates("mcp", "__", rest);
  }

  lemma {:induction false} PlainPasses(plain: string, rest: string)
    requires forall i :: 0 <= i < |plain| ==> plain[i] != '_'
    ensures OnePass(plain + rest) == plain + OnePass(rest)
  {
    if plain == "" {
      assert plain + rest == rest;
    } else {
      PlainPasses(plain[1..], rest);
      assert plain == [plain[0]] + plain[1..];
      PassesSingle(plain[0], plain[1..], rest);
    }
  }

  lemma ParseBuilt(s: string, t: string)
    requires s != "" && t != "" && HyphenFree(s)
    ensures Parse("mcp--" + (s + ("--" + t))) == Some((Decode(s), Decode(t)))
  {
    var remainder := s + ("--" + t);
    var name := "mcp--" + remainder;
    assert PREFIX + SEPARATOR == "mcp--";
    assert name[5..] == remainder;
    FirstSeparator(s, t);
    assert remainder[..|s|] == s && remainder[|s|..] == "--" + t && remainder[|s| + 2..] == t;
  }

  lemma {:induction false} FirstSeparator(s: string, t: string)
    requires HyphenFree(s)
    ensures SeparatorIndex(s + ("--" + t)) == |s|
  {
    var x := s + ("--" + t);
    if s == "" {
      assert x == "--" + t;
    } else {
      assert x[0] == s[0] && x[1..] == s[1..] + ("--" + t);
      FirstSeparator(s[1..], t);
    }
  }

  // ---------------------------------------------------------------- nothing else comes back

  /** Where normalising first writes a separator, or the length. */
  function PairIndex(s: string): (i: nat)
    ensures i == |s| || i + 2 <= |s|
    decreases |s|
  {
    if s == "" then 0
    else if "___" <= s then 3 + PairIndex(s[3..])
    else if "__" <= s then 0
    else 1 + PairIndex(s[1..])
  }

  /** Up to there nothing changes, and no further underscore follows the pair. */
  predicate SplitsWith(s: string, i: nat, o: string, t: string) {
    if i >= |s| then o == s
    else "__" <= s[i..] && (i + 2 < |s| ==> s[i + 2] != '_') && o == s[..i] + ("--" + t)
  }

  ghost predicate SplitsAt(s: string, i: nat) {
    SplitsWith(s, i, OnePass(s), if i + 2 <= |s| then OnePass(s[i + 2..]) else "")
  }

  lemma {:induction false} PairSplits(s: string)
    ensures SplitsAt(s, PairIndex(s))
    decreases |s|
  {
    if "___" <= s {
      PassTriple(s);
      PairSplits(s[3..]);
      SplitsLater(s, 3);
    } else if "__" <= s {
      PassPair(s);
    } else if s == "" {
      PassNothing();
    } else {
      PassSingle(s);
      PairSplits(s[1..]);
      SplitsLater(s, 1);
    }
  }

  lemma SplitsLater(s: string, n: nat)
    requires n <= |s| && OnePass(s) == s[..n] + OnePass(s[n..]) && PairIndex(s) == n + PairIndex(s[n..])
    requires SplitsAt(s[n..], PairIndex(s[n..]))
    ensures SplitsAt(s, PairIndex(s))
  {
    LaterSplit(s, n, PairIndex(s[n..]), OnePass(s[n..]));
  }

  lemma PassNothing()
    ensures SplitsAt("", PairIndex(""))
  {
  }

  lemma PassTriple(s: string)
    requires "___" <= s
    ensures OnePass(s) == s[..3] + OnePass(s[3..]) && PairIndex(s) == 3 + PairIndex(s[3..])
  {
  }

  lemma PassSingle(s: string)
    requires s != "" && !("__" <= s)
    ensures OnePass(s) == s[..1] + OnePass(s[1..]) && PairIndex(s) == 1 + PairIndex(s[1..])
  {
  }

  lemma PassPair(s: string)
    requires "__" <= s && !("___" <= s)
    ensures SplitsAt(s, 0) && PairIndex(s) == 0
  {
    assert s[0..] == s && s[..0] == "";
    assert "" + ("--" + OnePass(s[2..])) == "--" + OnePass(s[2..]);
  }

  lemma LaterSplit(s: string, n: nat, i: nat, q: string)
    requires n <= |s| && (i == |s| - n || n + i + 2 <= |s|)
    requires SplitsWith(s[n..], i, q, if n + i + 2 <= |s| then OnePass(s[n..][i + 2..]) else "")
    ensures SplitsWith(s, n + i, s[..n] + q, if n + i + 2 <= |s| then OnePass(s[n + i + 2..]) else "")
  {
    if n + i + 2 <= |s| {
      Shifted(s, n, i, OnePass(s[n + i + 2..]));
    } else {
      assert s[..n] + s[n..] == s;
    }
  }

  lemma Shifted(s: string, n: nat, i: nat, t: string)
    requires n + i + 2 <= |s|
    ensures s[n..][i..] == s[n + i..] && s[n..][i + 2..] == s[n + i + 2..]
    ensures s[..n] + (s[n..][..i] + ("--" + t)) == s[..n + i] + ("--" + t)
  {
    assert s[..n] + s[n..][..i] == s[..n + i];
    Associates(s[..n], s[n..][..i], "--" + t);
  }

  /** Decoding a part of the text splits there as well. */
  lemma {:induction false} DecodeSplits(s: string, w: string)
    requires s <= w && PairIndex(w) <= |s|
    ensures var i := PairIndex(w); Decode(s) == Decode(s[..i]) + Decode(s[i..])
    decreases |w|
  {
    var i := PairIndex(w);
    if i == 0 {
      assert s[..0] == "" && s[0..] == s;
    } else if "___" <= w {
      PassTriple(w);
      DecodeSplits(s[3..], w[3..]);
      DecodeTripleSplits(s, i);
    } else {
      PassSingle(w);
      DecodeSplits(s[1..], w[1..]);
      DecodeSingleSplits(s, i);
    }
  }

  lemma DecodeTripleSplits(s: string, i: nat)
    requires "___" <= s && 3 <= i <= |s| && Decode(s[3..]) == Decode(s[3..][..i - 3]) + Decode(s[3..][i - 3..])
    ensures Decode(s) == Decode(s[..i]) + Decode(s[i..])
  {
    assert s[..i][3..] == s[3..][..i - 3] && s[i..] == s[3..][i - 3..];
    Associates("-", Decode(s[3..][..i - 3]), Decode(s[i..]));
  }

  lemma DecodeSingleSplits(s: string, i: nat)
    requires !("___" <= s) && 1 <= i <= |s| && Decode(s[1..]) == Decode(s[1..][..i - 1]) + Decode(s[1..][i - 1..])
    ensures Decode(s) == Decode(s[..i]) + Decode(s[i..])
  {
    assert s[..i][1..] == s[1..][..i - 1] && s[i..] == s[1..][i - 1..];
    assert !("___" <= s[..i]);
    Associates([s[0]], Decode(s[1..][..i - 1]), Decode(s[i..]));
  }

  /** Decoding a normalised text gives as many characters as decoding the text itself. */
  lemma {:induction false} NormalisedDecodesAsLong(e: string)
    ensures |Decode(OnePass(e))| == |Decode(e)|
    decreases |e|
  {
    if e != "" {
      if "___" <= e {
        NormalisedDecodesAsLong(e[3..]);
        ReplaceHit(OnePass(e[3..]), "___", "-");
      } else if "__" <= e {
        NormalisedDecodesAsLong(e[2..]);
        DecodePair(OnePass(e[2..]));
        DecodeShortRun(e);
      } else {
        NormalisedDecodesAsLong(e[1..]);
        AfterSingle(e);
        DecodeSingle(e[0], OnePass(e[1..]));
      }
    }
  }

  lemma AfterSingle(e: string)
    requires e != "" && !("__" <= e)
    ensures e[0] == '_' ==> !("__" <= OnePass(e[1..]))
  {
    if |e| > 1 {
      FirstOfPass(e[1..]);
    }
  }

  lemma DecodePair(x: string)
    ensures Decode("--" + x) == "--" + Decode(x)
  {
    assert "--" + x == ['-'] + (['-'] + x);
    DecodeSingle('-', x);
    DecodeSingle('-', ['-'] + x);
  }

  lemma DecodeShortRun(e: string)
    requires "__" <= e && !("___" <= e)
    ensures Decode(e) == "__" + Decode(e[2..])
  {
    DecodeSingle(e[1], e[2..]);
    DecodeSingle(e[0], e[1..]);
    assert e == [e[0]] + e[1..] && e[1..] == [e[1]] + e[2..];
  }

  lemma PrefixRest(p: string, y: string)
    requires p != "" && p <= y
    ensures y != "" && p[0] == y[0] && p[1..] <= y[1..]
  {
    assert y == p + y[|p|..];
    assert y[1..] == p[1..] + y[|p|..];
  }

  lemma DecodeSingle(c: char, x: string)
    requires c == '_' ==> !("__" <= x)
    ensures Decode([c] + x) == [c] + Decode(x)
  {
    var y := [c] + x;
    assert y[1..] == x;
    if "___" <= y {
      PrefixRest("___", y);
    }
  }

  lemma FirstOfPass(s: string)
    requires s != ""
    ensures OnePass(s) != "" && (s[0] != '_' ==> OnePass(s)[0] == s[0])
  {
  }

  /** If decoding a normalised text shows no two hyphens together, normalising changed nothing. */
  lemma {:induction false} NoPairShown(e: string)
    requires Lacks(Decode(OnePass(e)), "--")
    ensures OnePass(e) == e
    decreases |e|
  {
    if e != "" {
      if "___" <= e {
        ReplaceHit(OnePass(e[3..]), "___", "-");
        LacksStep(Decode(OnePass(e)), "--");
        NoPairShown(e[3..]);
      } else if "__" <= e {
        DecodePair(OnePass(e[2..]));
        PairShows(Decode(OnePass(e[2..])));
      } else {
        AfterSingle(e);
        DecodeSingle(e[0], OnePass(e[1..]));
        LacksStep(Decode(OnePass(e)), "--");
        NoPairShown(e[1..]);
        assert [e[0]] + e[1..] == e;
      }
    }
  }

  lemma PairShows(x: string)
    ensures !Lacks("--" + x, "--")
  {
    LacksStep("--" + x, "--");
  }

  /** Without hyphens, encoding undoes decoding. */
  lemma {:induction false} EncodeUndoesDecode(u: string)
    requires HyphenFree(u)
    ensures EncodeHyphens(Decode(u)) == u
    decreases |u|
  {
    if u != "" {
      if "___" <= u {
        EncodeUndoesDecode(u[3..]);
        ReplaceHit(Decode(u[3..]), "-", "___");
        assert "___" + u[3..] == u;
      } else {
        EncodeUndoesDecode(u[1..]);
        EncodeStep(Decode(u));
        assert Decode(u) == [u[0]] + Decode(u[1..]);
        assert Decode(u)[1..] == Decode(u[1..]);
        assert [u[0]] + u[1..] == u;
      }
    }
  }

  /** Each collapsed hyphen saves three characters of the encoding. */
  lemma {:induction false} CollapsedEncodesShorter(s: string)
    ensures |CollapseHyphens(s)| <= |s|
    ensures |EncodeHyphens(s)| == |EncodeHyphens(CollapseHyphens(s))| + 3 * (|s| - |CollapseHyphens(s)|)
  {
    if s != "" {
      CollapsedEncodesShorter(s[1..]);
      EncodeStep(s);
      if !(s[0] == '-' && |s| > 1 && s[1] == '-') {
        EncodeStep(CollapseHyphens(s));
        assert CollapseHyphens(s)[1..] == CollapseHyphens(s[1..]);
      }
    }
  }

  /** A suffix of an encoding that does not begin inside an encoded hyphen encodes a suffix. */
  lemma {:induction false} EncodedSuffix(c: string, k: nat) returns (m: nat)
    requires 0 < k < |EncodeHyphens(c)| && EncodeHyphens(c)[k] != '_'
    ensures 0 < m <= |c| && EncodeHyphens(c)[k..] == EncodeHyphens(c[m..])
  {
    EncodeStep(c);
    var e, n := EncodeHyphens(c[1..]), if c[0] == '-' then 3 else 1;
    assert c[0] == '-' ==> EncodeHyphens(c)[..3] == "___";
    assert forall j :: 0 < j < n ==> EncodeHyphens(c)[j] == '_';
    assert EncodeHyphens(c)[k..] == e[k - n..];
    assert EncodeHyphens(c)[k] == e[k - n];
    if k == n {
      assert e[0..] == e;
      m := 1;
    } else {
      var m' := EncodedSuffix(c[1..], k - n);
      m := m' + 1;
      assert c[1..][m'..] == c[m..];
    }
  }

  lemma {:induction false} DecodedIsNonEmpty(s: string)
    requires s != ""
    ensures Decode(s) != ""
  {
  }

  lemma {:induction false} PassIsAllowed(s: string)
    requires AllAllowed(s)
    ensures AllAllowed(OnePass(s))
    decreases |s|
  {
    if s != "" {
      if "___" <= s { PassIsAllowed(s[3..]); } else if "__" <= s { PassIsAllowed(s[2..]); } else { PassIsAllowed(s[1..]); }
    }
  }

  /** How a name made of allowed characters is sanitized. */
  lemma SanitizedFrom(name: string)
    requires name != "" && AllAllowed(name)
    ensures var c := CollapseHyphens(name);
      && Sanitize(name) == (if IsLetter(name[0]) || name[0] == '_' || name[0] == '-' then "" else "_") + EncodeHyphens(c)
      && c != "" && |c| <= |name| && c[0] == name[0]
      && |Decode(EncodeHyphens(c))| <= |c|
  {
    AllowedIsUntouched(name);
    SanitizeAllowed(name);
    CollapseKeepsFirst(name);
    DecodedIsNotLonger(CollapseHyphens(name));
    var e := EncodeHyphens(CollapseHyphens(name));
    assert "" + e == e;
  }

  /** What is parsed from a normalised name stands before and after the first separator. */
  lemma ParsedAtSplit(w: string, o: string, t: string, i: nat, server: string, tool: string)
    requires HyphenFree(w) && Parse("mcp--" + o) == Some((server, tool))
    requires i == |w| || i + 2 <= |w|
    requires if i == |w| then o == w else o == w[..i] + ("--" + t)
    ensures 0 < i < |w| && t != "" && server == Decode(w[..i]) && tool == Decode(t)
  {
    if i == |w| {
      ParsesToNothing(w);
    } else {
      PrefixIsHyphenFree(w, i);
      ParsedFrom(w[..i], t, server, tool);
    }
  }

  lemma PrefixIsHyphenFree(w: string, i: nat)
    requires HyphenFree(w) && i <= |w|
    ensures HyphenFree(w[..i])
  {
  }

  lemma ParsedFrom(s: string, t: string, server: string, tool: string)
    requires HyphenFree(s) && Parse("mcp--" + (s + ("--" + t))) == Some((server, tool))
    ensures s != "" && t != "" && server == Decode(s) && tool == Decode(t)
  {
    if s == "" || t == "" {
      ParsesWithoutName(s, t);
    } else {
      ParseBuilt(s, t);
    }
  }

  lemma ParsesToNothing(w: string)
    requires HyphenFree(w)
    ensures Parse("mcp--" + w) == None
  {
    assert PREFIX + SEPARATOR == "mcp--" && ("mcp--" + w)[5..] == w;
    NoSeparator(w);
  }

  lemma ParsesWithoutName(s: string, t: string)
    requires HyphenFree(s) && (s == "" || t == "")
    ensures Parse("mcp--" + (s + ("--" + t))) == None
  {
    var remainder := s + ("--" + t);
    assert PREFIX + SEPARATOR == "mcp--" && ("mcp--" + remainder)[5..] == remainder;
    FirstSeparator(s, t);
    assert remainder[..|s|] == s && remainder[|s|..] == "--" + t && remainder[|s| + 2..] == t;
  }

  lemma NoRunHere(c: string, r: string)
    requires c != "" && c[0] == '_' && Lacks(c, "_-") && Lacks(c, "___")
    requires r == "" || ("__" <= r && !("___" <= r))
    requires PairIndex(EncodeHyphens(c) + r) == |EncodeHyphens(c)|
    ensures !("__" <= c) && (|c| == 1 ==> r == "")
  {
    LacksStep(c, "_-");
    LacksStep(c, "___");
    EncodeStep(c);
    if |c| == 1 {
      assert EncodeHyphens(c) + r == "_" + r;
      assert "___" <= "_" + r <==> "__" <= r;
    } else {
      EncodeStep(c[1..]);
    }
  }

  /** A name whose encoding goes through normalising unchanged has no two underscores together. */
  lemma {:induction false} UnpairedIsClean(c: string, r: string)
    requires Lacks(c, "_-") && Lacks(c, "___")
    requires r == "" || ("__" <= r && !("___" <= r))
    requires PairIndex(EncodeHyphens(c) + r) == |EncodeHyphens(c)|
    ensures Lacks(c, "__") && (r != "" && c != "" ==> c[|c| - 1] != '_')
  {
    if c != "" {
      LacksStep(c, "_-");
      LacksStep(c, "___");
      LacksStep(c, "__");
      if c[0] == '_' {
        NoRunHere(c, r);
      }
      UnpairedStep(c, r);
      UnpairedIsClean(c[1..], r);
    }
  }

  lemma UnpairedStep(c: string, r: string)
    requires c != "" && !("_-" <= c) && !("__" <= c) && (c[0] == '_' && |c| == 1 ==> r == "")
    requires PairIndex(EncodeHyphens(c) + r) == |EncodeHyphens(c)|
    ensures PairIndex(EncodeHyphens(c[1..]) + r) == |EncodeHyphens(c[1..])|
  {
    EncodeStep(c);
    var next := EncodeHyphens(c[1..]);
    if c[0] == '-' {
      Associates("___", next, r);
      PairIndexBehindTriple(next + r);
    } else {
      SingleBefore(c, r);
      Associates([c[0]], next, r);
      PairIndexBehindSingle(c[0], next + r);
    }
  }

  lemma PairIndexBehindTriple(x: string)
    ensures PairIndex("___" + x) == 3 + PairIndex(x)
  {
    assert ("___" + x)[3..] == x;
  }

  lemma PairIndexBehindSingle(c: char, x: string)
    requires !("__" <= [c] + x)
    ensures PairIndex([c] + x) == 1 + PairIndex(x)
  {
    assert ([c] + x)[1..] == x;
    assert "___"[..2] == "__";
  }

  lemma SingleBefore(c: string, r: string)
    requires c != "" && c[0] != '-' && !("_-" <= c) && !("__" <= c) && (c[0] == '_' && |c| == 1 ==> r == "")
    ensures !("__" <= [c[0]] + (EncodeHyphens(c[1..]) + r))
  {
    var z := [c[0]] + (EncodeHyphens(c[1..]) + r);
    EncodedBegins(c[1..]);
    if c[0] == '_' && |c| > 1 {
      NextIsOther(c);
      assert z[1] == (EncodeHyphens(c[1..]) + r)[0] == EncodeHyphens(c[1..])[0] == c[1];
    }
    NotPair(z);
  }

  lemma NextIsOther(c: string)
    requires |c| > 1 && c[0] == '_' && !("_-" <= c) && !("__" <= c)
    ensures c[1] != '-' && c[1] != '_'
  {
    assert c[..2] == [c[0], c[1]];
  }

  lemma NotPair(z: string)
    requires |z| < 2 || z[0] != '_' || z[1] != '_'
    ensures !("__" <= z)
  {
  }

  lemma LedByUnderscoreIsLost(w: string)
    requires w != "" && w[0] == '_'
    ensures Parse(OnePass("mcp__" + w)) == None
  {
    OnePassLetters(w);
    var name := OnePass("mcp__" + w);
    assert "___" <= "__" + w;
    assert name[3] == '_' && (PREFIX + SEPARATOR)[3] == '-';
  }

  lemma LedByLetterIsParsed(w: string)
    requires HyphenFree(w) && w != "" && w[0] != '_'
    ensures OnePass("mcp__" + w) == "mcp--" + OnePass(w)
  {
    OnePassLetters(w);
    OnePassSeparator(w);
    Associates("mcp", "--", OnePass(w));
    assert "mcp" + "--" == "mcp--";
  }

  /** The separator was written inside the server's name: the name is too short then. */
  lemma NotInsideServer(server: string, s: string, w: string)
    requires server != "" && AllAllowed(server) && IsLetter(server[0]) && s == Sanitize(server)
    requires s <= w && PairIndex(w) < |s|
    ensures Decode(w[..PairIndex(w)]) != server
  {
    var i := PairIndex(w);
    SanitizedFrom(server);
    DecodeSplits(s, w);
    DecodedIsNonEmpty(s[i..]);
    assert w[..i] == s[..i];
    assert s == EncodeHyphens(CollapseHyphens(server));
  }

  /** The separator was written inside the tool's name: one of the names does not fit then. */
  lemma NotInsideTool(server: string, s: string, tool: string, t: string, k: nat)
    requires server != "" && AllAllowed(server) && IsLetter(server[0]) && s == Sanitize(server)
    requires tool != "" && AllAllowed(tool) && t == Sanitize(tool)
    requires 0 < k < |t| && t[k - 1] == '_' && t[k] != '_'
    requires k == 1 ==> HyphenFree(s + "_") && Decode(s + "_") == server
    ensures Decode(OnePass(t[k..])) != tool
  {
    if IsLetter(tool[0]) || tool[0] == '_' || tool[0] == '-' || k > 1 {
      SuffixIsTooShort(tool, t, k);
    } else {
      NoOddUnderscore(server, s);
    }
  }

  /** A sanitized name with one more underscore is not an encoding of the name. */
  lemma NoOddUnderscore(server: string, s: string)
    requires server != "" && AllAllowed(server) && IsLetter(server[0]) && s == Sanitize(server) && HyphenFree(s + "_")
    ensures Decode(s + "_") != server
  {
    SanitizedFrom(server);
    assert s == EncodeHyphens(CollapseHyphens(server));
    EncodeUndoesDecode(s + "_");
    CollapsedEncodesShorter(server);
  }

  lemma SuffixIsTooShort(tool: string, t: string, k: nat)
    requires tool != "" && AllAllowed(tool) && t == Sanitize(tool)
    requires 0 < k < |t| && t[k] != '_'
    requires k == 1 ==> IsLetter(tool[0]) || tool[0] == '_' || tool[0] == '-'
    ensures |Decode(OnePass(t[k..]))| < |tool|
  {
    SanitizedFrom(tool);
    EncodedSuffixIsShort(CollapseHyphens(tool), t, k);
  }

  lemma EncodedSuffixIsShort(c: string, t: string, k: nat)
    requires t == EncodeHyphens(c) || t == "_" + EncodeHyphens(c)
    requires 0 < k < |t| && t[k] != '_' && (k == 1 ==> t == EncodeHyphens(c))
    ensures |Decode(OnePass(t[k..]))| < |c|
  {
    var e := EncodeHyphens(c);
    var j := if t == e then k else k - 1;
    assert t[k] == e[j] && t[k..] == e[j..];
    var m := EncodedSuffix(c, j);
    NormalisedDecodesAsLong(t[k..]);
    DecodedIsNotLonger(c[m..]);
  }

  /** The separator was written where it belongs: then both names are clean. */
  lemma ServerIsClean(server: string, s: string, t: string)
    requires server != "" && AllAllowed(server) && IsLetter(server[0]) && s == EncodeHyphens(server) && Survives(server)
    requires t != "" && t[0] != '_' && PairIndex(s + ("__" + t)) == |s|
    ensures SurvivesMangling(server) && server[|server| - 1] != '_'
  {
    assert ("__" + t)[2] == t[0];
    UnpairedIsClean(server, "__" + t);
  }

  lemma ServerSurvives(server: string, s: string)
    requires server != "" && IsLetter(server[0]) && s == Sanitize(server) && Decode(s) == server
    ensures Survives(server) && s == EncodeHyphens(server)
  {
    DecodeUndoesSanitize(server);
    SurvivorIsEncoded(server);
  }

  lemma SurvivorIsEncoded(name: string)
    requires Survives(name) && (IsLetter(name[0]) || name[0] == '_' || name[0] == '-')
    ensures Sanitize(name) == EncodeHyphens(name)
  {
    SanitizedFrom(name);
    CollapseKeepsFirst(name);
  }

  lemma ToolIsClean(tool: string, t: string)
    requires tool != "" && AllAllowed(tool) && t == Sanitize(tool)
    requires t != "" && t[0] != '_' && HyphenFree(t) && Decode(OnePass(t)) == tool
    ensures SurvivesMangling(tool)
  {
    ToolKeepsHyphens(tool, t);
    NoPairShown(t);
    DecodeUndoesSanitize(tool);
    PairFree(t);
    assert t + "" == t;
    UnpairedIsClean(tool, "");
  }

  lemma ToolKeepsHyphens(tool: string, t: string)
    requires tool != "" && AllAllowed(tool) && t == Sanitize(tool)
    requires t != "" && t[0] != '_' && Decode(OnePass(t)) == tool
    ensures Lacks(tool, "--") && t == EncodeHyphens(tool) && IsLetter(tool[0])
  {
    SanitizedFrom(tool);
    CollapseKeepsFirst(tool);
    NormalisedDecodesAsLong(t);
    EncodeStep(CollapseHyphens(tool));
    assert t == EncodeHyphens(CollapseHyphens(tool));
  }

  lemma PairFree(s: string)
    requires HyphenFree(s) && OnePass(s) == s
    ensures PairIndex(s) == |s|
  {
    PairWritesHyphen(s);
  }

  lemma PairWritesHyphen(s: string)
    ensures PairIndex(s) < |s| ==> PairIndex(s) < |OnePass(s)| && OnePass(s)[PairIndex(s)] == '-'
  {
    PairSplits(s);
  }

  /** Parsed names are made of allowed characters. */
  lemma ParsedIsAllowed(w: string, i: nat)
    requires AllAllowed(w) && 0 < i && i + 2 < |w|
    ensures Decode(w[..i]) != "" && AllAllowed(Decode(w[..i]))
    ensures Decode(OnePass(w[i + 2..])) != "" && AllAllowed(Decode(OnePass(w[i + 2..])))
  {
    DecodedIsAllowed(w[..i]);
    DecodedIsNonEmpty(w[..i]);
    PassIsAllowed(w[i + 2..]);
    FirstOfPass(w[i + 2..]);
    DecodedIsAllowed(OnePass(w[i + 2..]));
    DecodedIsNonEmpty(OnePass(w[i + 2..]));
  }

  lemma ServerIsLedByLetter(server: string, s: string)
    requires server != "" && AllAllowed(server) && s == Sanitize(server) && s != "" && s[0] != '_'
    ensures IsLetter(server[0])
  {
    SanitizedFrom(server);
    EncodeStep(CollapseHyphens(server));
  }

  /** Whatever names come back are recoverable ones. */
  lemma RecoveredIsRecoverable(server: string, tool: string)
    requires |FullName(server, tool)| <= MAX_LENGTH && Returned(server, tool) == Some((server, tool))
    ensures Recoverable(server, tool)
  {
    NormalizedForm(server, tool);
    ParsedIsRecoverable(server, Sanitize(server), tool, Sanitize(tool));
  }

  lemma ParsedIsRecoverable(server: string, s: string, tool: string, t: string)
    requires s == Sanitize(server) && t == Sanitize(tool)
    requires HyphenFree(s) && AllAllowed(s) && s != "" && HyphenFree(t) && AllAllowed(t) && t != ""
    requires Parse(OnePass("mcp__" + (s + ("__" + t)))) == Some((server, tool))
    ensures Recoverable(server, tool)
  {
    ParsedIsSeparated(server, s, tool, t, OnePass("mcp__" + (s + ("__" + t))), PairIndex(s + ("__" + t)));
    ServerIsLedByLetter(server, s);
    RecoveredAtPair(server, s, tool, t, PairIndex(s + ("__" + t)));
  }

  lemma ParsedIsSeparated(server: string, s: string, tool: string, t: string, name: string, i: nat)
    requires HyphenFree(s) && AllAllowed(s) && s != "" && HyphenFree(t) && AllAllowed(t) && t != ""
    requires i == PairIndex(s + ("__" + t)) && name == OnePass("mcp__" + (s + ("__" + t)))
    requires Parse(name) == Some((server, tool))
    ensures s[0] != '_' && Separated(server, s, tool, t, i)
    ensures server != "" && AllAllowed(server) && tool != "" && AllAllowed(tool)
  {
    var w := s + ("__" + t);
    assert w[0] == s[0];
    WholeIsAllowed(s, t);
    if s[0] == '_' {
      LedByUnderscoreIsLost(w);
    } else {
      LedByLetterIsParsed(w);
      PairSplits(w);
      SeparatedAtSplit(server, s, tool, t, OnePass(w), i);
    }
  }

  lemma SeparatedAtSplit(server: string, s: string, tool: string, t: string, o: string, i: nat)
    requires var w := s + ("__" + t);
      && HyphenFree(w) && AllAllowed(w) && i == PairIndex(w) && SplitsAt(w, i) && o == OnePass(w)
      && Parse("mcp--" + o) == Some((server, tool))
    ensures Separated(server, s, tool, t, i)
    ensures server != "" && AllAllowed(server) && tool != "" && AllAllowed(tool)
  {
    var w := s + ("__" + t);
    ParsedAtSplit(w, o, if i + 2 <= |w| then OnePass(w[i + 2..]) else "", i, server, tool);
    ParsedIsAllowed(w, i);
  }

  lemma WholeIsAllowed(s: string, t: string)
    requires HyphenFree(s) && AllAllowed(s) && HyphenFree(t) && AllAllowed(t)
    ensures HyphenFree(s + ("__" + t)) && AllAllowed(s + ("__" + t))
  {
  }

  /** The parsed names are the given ones, and `i` is where they are separated. */
  ghost predicate Separated(server: string, s: string, tool: string, t: string, i: nat) {
    var w := s + ("__" + t);
    && i == PairIndex(w) && 0 < i && i + 2 < |w| && "__" <= w[i..] && w[i + 2] != '_'
    && server == Decode(w[..i]) && tool == Decode(OnePass(w[i + 2..]))
  }

  lemma RecoveredAtPair(server: string, s: string, tool: string, t: string, i: nat)
    requires server != "" && AllAllowed(server) && IsLetter(server[0]) && s == Sanitize(server)
    requires tool != "" && AllAllowed(tool) && t == Sanitize(tool)
    requires HyphenFree(s) && s != "" && HyphenFree(t) && t != "" && Separated(server, s, tool, t, i)
    ensures Recoverable(server, tool)
  {
    if i < |s| {
      NotInsideServer(server, s, s + ("__" + t));
    } else if i == |s| {
      SeparatedBetween(server, s, tool, t);
      ServerSurvives(server, s);
      ServerIsClean(server, s, t);
      ToolIsClean(tool, t);
    } else {
      SeparatedAfter(server, s, tool, t, i);
      NotInsideTool(server, s, tool, t, i - |s|);
    }
  }

  lemma SeparatedBetween(server: string, s: string, tool: string, t: string)
    requires Separated(server, s, tool, t, |s|) && t != ""
    ensures t[0] != '_' && Decode(s) == server && Decode(OnePass(t)) == tool
  {
    var w := s + ("__" + t);
    assert w[..|s|] == s && w[|s| + 2..] == t && w[|s| + 2] == t[0];
  }

  lemma SeparatedAfter(server: string, s: string, tool: string, t: string, i: nat)
    requires Separated(server, s, tool, t, i) && |s| < i && HyphenFree(s)
    ensures var k := i - |s|;
      && k < |t| && t[k - 1] == '_' && t[k] != '_' && tool == Decode(OnePass(t[k..]))
      && (k == 1 ==> HyphenFree(s + "_") && Decode(s + "_") == server)
  {
    var w, k := s + ("__" + t), i - |s|;
    assert w[i + 2..] == t[k..] && w[i..][1] == w[i + 1] == t[k - 1] && w[i + 2] == t[k];
    assert k == 1 ==> w[..i] == s + "_";
  }

  // ---------------------------------------------------------------- names that are cut

  lemma {:induction false} EncodeAppend(a: string, b: string)
    ensures EncodeHyphens(a + b) == EncodeHyphens(a) + EncodeHyphens(b)
  {
    if a == "" {
      assert a + b == b;
    } else {
      EncodeStep(a);
      EncodeStep(a + b);
      assert (a + b)[1..] == a[1..] + b;
      EncodeAppend(a[1..], b);
    }
  }

  lemma EncodeUnderscores(u: string)
    requires u == "" || u == "_" || u == "__"
    ensures EncodeHyphens(u) == u
  {
    if u != "" {
      EncodeStep(u);
      if |u| == 2 { EncodeStep(u[1..]); }
    }
  }

  /** A beginning of an encoding encodes a beginning, but for one or two underscores of a hyphen. */
  lemma {:induction false} EncodedPrefix(c: string, n: nat) returns (j: nat, u: string)
    requires n <= |EncodeHyphens(c)|
    ensures j <= |c| && EncodeHyphens(c)[..n] == EncodeHyphens(c[..j]) + u
    ensures u == "" || ((u == "_" || u == "__") && j < |c| && c[j] == '-')
  {
    if n == 0 {
      j, u := 0, "";
      assert c[..0] == "";
    } else {
      EncodeStep(c);
      var first := if c[0] == '-' then "___" else [c[0]];
      var rest := EncodeHyphens(c[1..]);
      if n < |first| {
        j, u := 0, first[..n];
        assert c[..0] == "" && (first + rest)[..n] == first[..n];
      } else {
        var i, v := EncodedPrefix(c[1..], n - |first|);
        j, u := i + 1, v;
        assert (first + rest)[..n] == first + rest[..n - |first|];
        EncodeStep(c[..j]);
        assert c[..j][1..] == c[1..][..i];
        Associates(first, EncodeHyphens(c[1..][..i]), v);
      }
    }
  }

  /** As long as the name that comes back, or longer, would be what it was encoded from. */
  lemma CutDecodesShort(c: string, n: nat)
    requires n <= |EncodeHyphens(c)|
    ensures |Decode(OnePass(EncodeHyphens(c)[..n]))| <= |c| + 1
  {
    var j, u := EncodedPrefix(c, n);
    EncodeUnderscores(u);
    EncodeAppend(c[..j], u);
    NormalisedDecodesAsLong(EncodeHyphens(c)[..n]);
    DecodedIsNotLonger(c[..j] + u);
  }

  /** What comes back from less than its own encoding had two hyphens together. */
  lemma LessThanItsEncoding(name: string, x: string)
    requires HyphenFree(x) && Decode(OnePass(x)) == name && |x| < |EncodeHyphens(CollapseHyphens(name))|
    ensures |CollapseHyphens(name)| < |name|
  {
    if name != "" {
      CollapseKeepsFirst(name);
    }
    if |CollapseHyphens(name)| == |name| {
      NoPairShown(x);
      EncodeUndoesDecode(x);
    }
  }

  lemma {:induction false} CollapsedLacks(s: string)
    ensures Lacks(CollapseHyphens(s), "--")
  {
    if s == "" {
      assert Lacks("", "--");
    } else {
      CollapsedLacks(s[1..]);
      if !(s[0] == '-' && |s| > 1 && s[1] == '-') {
        var c := CollapseHyphens(s);
        assert c[1..] == CollapseHyphens(s[1..]);
        if |s| > 1 { CollapseKeepsFirst(s[1..]); }
        NotTwo(c);
        LacksStep(c, "--");
      }
    }
  }

  lemma NotTwo(c: string)
    requires |c| < 2 || c[0] != '-' || c[1] != '-'
    ensures !("--" <= c)
  {
  }

  /** A hyphen more, or two, at the end. */
  lemma {:induction false} CollapseEnd(y: string)
    ensures CollapseHyphens(y + "--") == CollapseHyphens(y + "-")
    ensures CollapseHyphens(y + "-") == CollapseHyphens(y) + if y == "" || y[|y| - 1] != '-' then "-" else ""
  {
    if y == "" {
      CollapseNothing();
    } else {
      CollapseEnd(y[1..]);
      CollapseEndStep(y, "-");
      CollapseEndStep(y, "--");
      CollapseStep(y);
      LastOfRest(y);
    }
  }

  lemma LastOfRest(y: string)
    requires y != ""
    ensures |y| > 1 ==> y[1..][|y| - 2] == y[|y| - 1]
    ensures |y| == 1 ==> y[1..] == "" && y == [y[0]]
  {
  }

  lemma CollapseNothing()
    ensures CollapseHyphens("" + "--") == CollapseHyphens("" + "-") == "-" && CollapseHyphens("") == ""
  {
    assert "--"[1..] == "-" && "" + "--" == "--" && "" + "-" == "-";
    assert CollapseHyphens("-") == ['-'] + CollapseHyphens("");
  }

  lemma CollapseStep(y: string)
    requires y != ""
    ensures CollapseHyphens(y) == (if y[0] == '-' && |y| > 1 && y[1] == '-' then "" else [y[0]]) + CollapseHyphens(y[1..])
  {
    assert "" + CollapseHyphens(y[1..]) == CollapseHyphens(y[1..]);
  }

  lemma CollapseEndStep(y: string, end: string)
    requires y != "" && end != "" && end[0] == '-'
    ensures CollapseHyphens(y + end)
         == (if y[0] == '-' && (|y| == 1 || y[1] == '-') then "" else [y[0]]) + CollapseHyphens(y[1..] + end)
  {
    CollapseStep(y + end);
    assert (y + end)[1..] == y[1..] + end;
    assert (y + end)[1] == if |y| > 1 then y[1] else end[0];
  }

  lemma {:induction false} DecodeHyphensEnd(z: string)
    ensures Decode(z + "--") == Decode(z) + "--"
    decreases |z|
  {
    if z == "" {
      DecodePair("");
      assert z + "--" == "--" + "";
    } else if "___" <= z {
      assert (z + "--")[3..] == z[3..] + "--";
      DecodeHyphensEnd(z[3..]);
    } else {
      assert (z + "--")[1..] == z[1..] + "--";
      NoTripleAtEnd(z);
      DecodeHyphensEnd(z[1..]);
    }
  }

  lemma NoTripleAtEnd(z: string)
    requires z != "" && !("___" <= z)
    ensures !("___" <= z + "--")
  {
    var y := z + "--";
    if |z| < 3 { assert y[|z|] == '-'; } else { assert y[..3] == z[..3]; }
  }

  /** Normalising goes on afresh behind anything but an underscore. */
  lemma {:induction false} PassEnd(y: string, rest: string)
    requires y == "" || y[|y| - 1] != '_'
    ensures OnePass(y + rest) == OnePass(y) + OnePass(rest)
    decreases |y|
  {
    if y == "" {
      assert y + rest == rest;
    } else if "___" <= y {
      LongerThanRun(y, "___");
      PassEnd(y[3..], rest);
      TripleEnd(y, rest);
    } else if "__" <= y {
      LongerThanRun(y, "__");
      PassEnd(y[2..], rest);
      PairEnd(y, rest);
    } else {
      PassEnd(y[1..], rest);
      SingleEnd(y, rest);
    }
  }

  lemma LongerThanRun(y: string, run: string)
    requires y != "" && y[|y| - 1] != '_' && run <= y && run != "" && run[|run| - 1] == '_'
    ensures |run| < |y| && y[|run|..][|y| - |run| - 1] != '_'
  {
  }

  lemma RunThenRest(x: string)
    ensures OnePass("___" + x) == "___" + OnePass(x)
  {
    assert ("___" + x)[3..] == x;
  }

  lemma TripleEnd(y: string, rest: string)
    requires "___" <= y && OnePass(y[3..] + rest) == OnePass(y[3..]) + OnePass(rest)
    ensures OnePass(y + rest) == OnePass(y) + OnePass(rest)
  {
    var u := y[3..];
    RunThenRest(u);
    RunThenRest(u + rest);
    Associates("___", u, rest);
    Associates("___", OnePass(u), OnePass(rest));
    assert y == "___" + u;
  }

  lemma PairThenRest(x: string)
    requires x != "" && x[0] != '_'
    ensures OnePass("__" + x) == "--" + OnePass(x)
  {
    OnePassSeparator(x);
  }

  lemma PairEnd(y: string, rest: string)
    requires "__" <= y && !("___" <= y) && |y| > 2 && OnePass(y[2..] + rest) == OnePass(y[2..]) + OnePass(rest)
    ensures OnePass(y + rest) == OnePass(y) + OnePass(rest)
  {
    var u := y[2..];
    assert y == "__" + u && u[0] == y[2] != '_';
    PairThenRest(u);
    PairThenRest(u + rest);
    Associates("__", u, rest);
    Associates("--", OnePass(u), OnePass(rest));
  }

  lemma SingleThenRest(c: char, x: string)
    requires !("__" <= [c] + x)
    ensures OnePass([c] + x) == [c] + OnePass(x)
  {
    assert ([c] + x)[1..] == x;
    assert "___"[..2] == "__";
  }

  lemma SingleEnd(y: string, rest: string)
    requires y != "" && !("__" <= y) && y[|y| - 1] != '_' && OnePass(y[1..] + rest) == OnePass(y[1..]) + OnePass(rest)
    ensures OnePass(y + rest) == OnePass(y) + OnePass(rest)
  {
    var c, u := y[0], y[1..];
    assert y == [c] + u;
    NoPairHere(y, rest);
    Associates([c], u, rest);
    SingleThenRest(c, u);
    SingleThenRest(c, u + rest);
    Associates([c], OnePass(u), OnePass(rest));
  }

  lemma NoPairHere(y: string, rest: string)
    requires y != "" && !("__" <= y) && y[|y| - 1] != '_'
    ensures !("__" <= y + rest) && !("___" <= y + rest)
  {
    var z := y + rest;
    if |y| == 1 { assert z[0] != '_'; } else { assert z[..2] == y[..2]; }
    assert "___"[..2] == "__";
  }

  lemma EncodedEnds(q: string)
    requires q != "" && q[|q| - 1] != '-'
    ensures EncodeHyphens(q) != "" && EncodeHyphens(q)[|EncodeHyphens(q)| - 1] == q[|q| - 1]
  {
    var last := [q[|q| - 1]];
    assert q == q[..|q| - 1] + last;
    EncodeAppend(q[..|q| - 1], last);
    EncodeStep(last);
    assert EncodeHyphens(last) == last + EncodeHyphens("");
  }

  /** If a cut tool's name comes back, two of the three underscores of its last hyphen are left. */
  lemma CutToolShape(tool: string, c: string, n: nat) returns (q: string)
    requires c == CollapseHyphens(tool) && HyphenFree(EncodeHyphens(c)) && n < |EncodeHyphens(c)|
    requires Decode(OnePass(EncodeHyphens(c)[..n])) == tool
    ensures c == q + "-" && EncodeHyphens(c)[..n] == EncodeHyphens(q) + "__"
    ensures |tool| == |q| + 2 && n + 1 == |EncodeHyphens(c)|
  {
    var x := EncodeHyphens(c)[..n];
    LessThanItsEncoding(tool, x);
    var j, u := EncodedPrefix(c, n);
    q := c[..j];
    EncodeUnderscores(u);
    EncodeAppend(q, u);
    NormalisedDecodesAsLong(x);
    DecodedIsNotLonger(q + u);
    assert u == "__" && |c| == j + 1;
    assert c == q + "-";
    EncodeAppend(q, "-");
    EncodeStep("-");
    assert EncodeHyphens("-") == "___" + EncodeHyphens("");
  }

  lemma CutToolEnds(tool: string, c: string, q: string)
    requires c == CollapseHyphens(tool) && c == q + "-" && |tool| == |q| + 2 && tool != "" && AllAllowed(tool) && IsLetter(tool[0])
    requires Decode(OnePass(EncodeHyphens(q) + "__")) == tool
    ensures q != "" && AllAllowed(q) && q[0] == tool[0] && IsAlphanumeric(q[|q| - 1])
  {
    CollapseKeepsFirst(tool);
    CollapsedIsAllowed(tool);
    CollapsedLacks(tool);
    assert q != "" by { assert c[0] == tool[0]; }
    var last := q[|q| - 1];
    assert c[|q| - 1] == last && q[0] == c[0];
    assert forall i :: 0 <= i < |q| ==> q[i] == c[i];
    if last == '-' { EndsInTwo(c); }
    if last == '_' {
      LongRunIsLost(q);
    }
  }

  lemma EndsInTwo(c: string)
    requires |c| >= 2 && c[|c| - 2] == '-' && c[|c| - 1] == '-'
    ensures !Lacks(c, "--")
  {
    assert c[|c| - 2..] == "--";
  }

  lemma LongRunIsLost(q: string)
    requires q != "" && q[|q| - 1] == '_'
    ensures |Decode(OnePass(EncodeHyphens(q) + "__"))| <= |q|
  {
    var p := q[..|q| - 1];
    assert q == p + "_";
    EncodeAppend(p, "_");
    EncodeUnderscores("_");
    EncodeAppend(p, "-");
    EncodeStep("-");
    assert EncodeHyphens("-") == "___" + EncodeHyphens("") == "___";
    assert EncodeHyphens(q) + "__" == EncodeHyphens(p) + "___" == EncodeHyphens(p + "-");
    NormalisedDecodesAsLong(EncodeHyphens(p + "-"));
    DecodedIsNotLonger(p + "-");
  }

  lemma CutToolIsClean(tool: string, c: string, q: string)
    requires c == CollapseHyphens(tool) && c == q + "-" && |tool| == |q| + 2 && tool != "" && AllAllowed(tool) && IsLetter(tool[0])
    requires Decode(OnePass(EncodeHyphens(q) + "__")) == tool
    ensures tool == q + "--" && SurvivesMangling(q) && IsAlphanumeric(q[|q| - 1])
  {
    CutToolEnds(tool, c, q);
    PairAtEnd(q);
    BeforeTwoHyphens(Decode(OnePass(EncodeHyphens(q))), q);
    CleanBefore(q);
  }

  /** Two underscores behind a letter or digit come back as two hyphens. */
  lemma PairAtEnd(q: string)
    requires q != "" && IsAlphanumeric(q[|q| - 1])
    ensures Decode(OnePass(EncodeHyphens(q) + "__")) == Decode(OnePass(EncodeHyphens(q))) + "--"
  {
    EncodedEnds(q);
    PassEnd(EncodeHyphens(q), "__");
    assert OnePass("__") == "--" + OnePass("") == "--";
    DecodeHyphensEnd(OnePass(EncodeHyphens(q)));
  }

  lemma BeforeTwoHyphens(y: string, q: string)
    requires CollapseHyphens(y + "--") == q + "-" && |y| == |q| && q != ""
    ensures y == q && Lacks(q, "--")
  {
    CollapseEnd(y);
    CollapseKeepsFirst(y);
    if y[|y| - 1] != '-' {
      assert CollapseHyphens(y) + "-" == q + "-";
      assert CollapseHyphens(y) == (CollapseHyphens(y) + "-")[..|q|];
    }
  }

  lemma CleanBefore(q: string)
    requires q != "" && AllAllowed(q) && IsLetter(q[0]) && Lacks(q, "--") && Decode(OnePass(EncodeHyphens(q))) == q
    ensures SurvivesMangling(q)
  {
    CollapseKeepsFirst(q);
    SanitizedFrom(q);
    EncodedIsIdentifier(q);
    EncodedBegins(q);
    ToolIsClean(q, EncodeHyphens(q));
  }

  // ---- where a cut name is separated

  lemma {:induction false} MangleCut(x: string, n: nat)
    requires n <= |x|
    ensures |Mangle(x)| == |x| && Mangle(x[..n]) == Mangle(x)[..n]
  {
    if x != "" {
      MangleFirst(x);
      MangleCut(x[1..], if n == 0 then 0 else n - 1);
      if n > 0 {
        MangleFirst(x[..n]);
        assert x[..n][1..] == x[1..][..n - 1];
      }
    }
  }

  lemma MangleFirst(x: string)
    requires x != ""
    ensures Mangle(x) == [if x[0] == '-' then '_' else x[0]] + Mangle(x[1..])
  {
    assert "-" <= x <==> x[0] == '-';
  }

  /** The built name, mangled and normalised, when only `n` characters are left of the two names. */
  lemma CutForm(server: string, tool: string, n: nat)
    requires |FullName(server, tool)| > MAX_LENGTH && n + 5 == MAX_LENGTH
    ensures var w := Sanitize(server) + ("__" + Sanitize(tool));
      && |w| + 5 == |FullName(server, tool)|
      && NormalizeToolName(Mangle(Build(server, tool))) == OnePass("mcp__" + w[..n])
      && HyphenFree(w) && AllAllowed(w)
  {
    var s, t := Sanitize(server), Sanitize(tool);
    var w := s + ("__" + t);
    SanitizedIsIdentifier(server);
    SanitizedIsIdentifier(tool);
    FullNameIs(server, tool);
    MangleFullName(s, t);
    MangleCut(FullName(server, tool), n + 5);
    WholeIsAllowed(s, t);
    assert Build(server, tool) == FullName(server, tool)[..n + 5];
    assert ("mcp__" + w)[..n + 5] == "mcp__" + w[..n];
    AllowedLacksPlaceholder("mcp__" + w[..n]);
    NormalizeIsOnePass("mcp__" + w[..n]);
  }

  lemma {:induction false} PairIndexOfPrefix(a: string, w: string)
    requires a <= w && PairIndex(a) + 2 < |a|
    ensures PairIndex(w) == PairIndex(a)
    decreases |a|
  {
    assert forall i :: 0 <= i < |a| ==> a[i] == w[i];
    if "___" <= a {
      assert a[3..] <= w[3..];
      PairIndexOfPrefix(a[3..], w[3..]);
    } else if "__" <= a {
    } else {
      assert a[1..] <= w[1..];
      PairIndexOfPrefix(a[1..], w[1..]);
    }
  }

  /** The parsed names are the given ones, `i` is where they are separated, and `n` characters are left. */
  ghost predicate CutSeparated(server: string, tool: string, w: string, n: nat, i: nat) {
    && n <= |w| && i == PairIndex(w) && 0 < i && i + 2 < n && "__" <= w[i..] && w[i + 2] != '_'
    && server == Decode(w[..i]) && tool == Decode(OnePass(w[i + 2..n]))
  }

  lemma CutIsSeparated(server: string, tool: string, w: string, n: nat) returns (i: nat)
    requires n <= |w| && n > 0 && HyphenFree(w) && AllAllowed(w) && Parse(OnePass("mcp__" + w[..n])) == Some((server, tool))
    ensures w[0] != '_' && CutSeparated(server, tool, w, n, i)
    ensures server != "" && AllAllowed(server) && tool != "" && AllAllowed(tool)
  {
    var a := w[..n];
    i := PairIndex(a);
    CutAtPair(server, tool, a);
    PairIndexOfPrefix(a, w);
    CutOfWhole(w, n, i);
  }

  lemma CutOfWhole(w: string, n: nat, i: nat)
    requires n <= |w| && i + 2 < n
    ensures w[..n][i + 2..] == w[i + 2..n] && w[..n][..i] == w[..i] && w[..n][i + 2] == w[i + 2]
    ensures "__" <= w[..n][i..] ==> "__" <= w[i..]
  {
    assert w[..n][i..][..2] == w[i..][..2];
  }

  lemma CutAtPair(server: string, tool: string, a: string)
    requires a != "" && HyphenFree(a) && AllAllowed(a) && Parse(OnePass("mcp__" + a)) == Some((server, tool))
    ensures a[0] != '_'
    ensures var i := PairIndex(a);
      && 0 < i && i + 2 < |a| && "__" <= a[i..] && a[i + 2] != '_'
      && server == Decode(a[..i]) && tool == Decode(OnePass(a[i + 2..]))
      && server != "" && AllAllowed(server) && tool != "" && AllAllowed(tool)
  {
    if a[0] == '_' {
      LedByUnderscoreIsLost(a);
    } else {
      LedByLetterIsParsed(a);
      PairSplits(a);
      CutAtSplit(server, tool, a, OnePass(a));
    }
  }

  lemma CutAtSplit(server: string, tool: string, a: string, o: string)
    requires HyphenFree(a) && AllAllowed(a) && SplitsAt(a, PairIndex(a)) && o == OnePass(a) && Parse("mcp--" + o) == Some((server, tool))
    ensures var i := PairIndex(a);
      && 0 < i && i + 2 < |a| && "__" <= a[i..] && a[i + 2] != '_'
      && server == Decode(a[..i]) && tool == Decode(OnePass(a[i + 2..]))
      && server != "" && AllAllowed(server) && tool != "" && AllAllowed(tool)
  {
    var i := PairIndex(a);
    NamesAtSplit(server, tool, a, o, i);
    ParsedIsAllowed(a, i);
  }

  lemma NamesAtSplit(server: string, tool: string, a: string, o: string, i: nat)
    requires HyphenFree(a) && i == PairIndex(a) && SplitsAt(a, i) && o == OnePass(a) && Parse("mcp--" + o) == Some((server, tool))
    ensures 0 < i && i + 2 < |a| && "__" <= a[i..] && a[i + 2] != '_'
    ensures server == Decode(a[..i]) && tool == Decode(OnePass(a[i + 2..]))
  {
    ParsedAtSplit(a, o, if i + 2 <= |a| then OnePass(a[i + 2..]) else "", i, server, tool);
  }

  /** What is left of the tool's name behind a later separator is too short to be the name. */
  lemma NotInsideCutTool(server: string, s: string, tool: string, t: string, k: nat, m: nat)
    requires server != "" && AllAllowed(server) && IsLetter(server[0]) && s == Sanitize(server)
    requires tool != "" && AllAllowed(tool) && t == Sanitize(tool)
    requires 0 < k < m <= |t| && t[k] != '_'
    requires k == 1 ==> HyphenFree(s + "_") && Decode(s + "_") == server
    ensures Decode(OnePass(t[k..m])) != tool
  {
    if k == 1 && !IsLetter(tool[0]) && tool[0] != '_' && tool[0] != '-' {
      NoOddUnderscore(server, s);
    } else {
      SanitizedFrom(tool);
      CollapsedIsAllowed(tool);
      EncodedIsIdentifier(CollapseHyphens(tool));
      CutSuffixIsShort(tool, CollapseHyphens(tool), t, k, m);
    }
  }

  lemma CutOfSuffix(t: string, k: nat, m: nat)
    requires k < m <= |t|
    ensures t[k..m] == t[k..][..m - k]
  {
  }

  lemma BehindUnderscore(e: string, k: nat)
    requires 0 < k <= |e|
    ensures ("_" + e)[k..] == e[k - 1..] && ("_" + e)[k] == e[k - 1]
  {
  }

  lemma CutSuffixIsShort(tool: string, c: string, t: string, k: nat, m: nat)
    requires c == CollapseHyphens(tool) && HyphenFree(EncodeHyphens(c))
    requires t == EncodeHyphens(c) || t == "_" + EncodeHyphens(c)
    requires 0 < k < m <= |t| && t[k] != '_' && (k == 1 ==> t == EncodeHyphens(c))
    ensures Decode(OnePass(t[k..m])) != tool
  {
    var e := EncodeHyphens(c);
    var j := if t == e then k else k - 1;
    CutOfSuffix(t, k, m);
    if t != e { BehindUnderscore(e, k); }
    LaterPartIsShort(tool, c, j, m - k);
  }

  lemma LaterPartIsShort(tool: string, c: string, k: nat, n: nat)
    requires c == CollapseHyphens(tool) && HyphenFree(EncodeHyphens(c))
    requires 0 < k < |EncodeHyphens(c)| && EncodeHyphens(c)[k] != '_' && k + n <= |EncodeHyphens(c)|
    ensures Decode(OnePass(EncodeHyphens(c)[k..][..n])) != tool
  {
    var x := EncodeHyphens(c)[k..][..n];
    var m := EncodedSuffix(c, k);
    CutDecodesShort(c[m..], n);
    if Decode(OnePass(x)) == tool {
      LessThanItsEncoding(tool, x);
    }
  }

  lemma CutIsBetween(server: string, s: string, tool: string, t: string, n: nat, i: nat)
    requires server != "" && AllAllowed(server) && IsLetter(server[0]) && s == Sanitize(server) && HyphenFree(s)
    requires tool != "" && AllAllowed(tool) && t == Sanitize(tool) && CutSeparated(server, tool, s + ("__" + t), n, i)
    ensures i == |s|
  {
    if i < |s| {
      NotInsideServer(server, s, s + ("__" + t));
    }
    CutIsNotAfter(server, s, tool, t, n, i);
  }

  lemma CutIsNotAfter(server: string, s: string, tool: string, t: string, n: nat, i: nat)
    requires server != "" && AllAllowed(server) && IsLetter(server[0]) && s == Sanitize(server) && HyphenFree(s)
    requires tool != "" && AllAllowed(tool) && t == Sanitize(tool) && CutSeparated(server, tool, s + ("__" + t), n, i)
    ensures i <= |s|
  {
    if i > |s| {
      var k, m := CutInTool(server, s, tool, t, n, i);
      NotInsideCutTool(server, s, tool, t, k, m);
    }
  }

  lemma CutIsRecoverable(server: string, tool: string, n: nat)
    requires |FullName(server, tool)| > MAX_LENGTH && n + 5 == MAX_LENGTH && Returned(server, tool) == Some((server, tool))
    ensures RecoverableCut(server, tool)
  {
    CutForm(server, tool, n);
    SanitizedIsIdentifier(server);
    SanitizedIsIdentifier(tool);
    ParsedCut(server, Sanitize(server), tool, Sanitize(tool), n);
  }

  lemma ParsedCut(server: string, s: string, tool: string, t: string, n: nat)
    requires s == Sanitize(server) && t == Sanitize(tool) && s != "" && t != "" && HyphenFree(s) && HyphenFree(t)
    requires var w := s + ("__" + t);
      HyphenFree(w) && AllAllowed(w) && n < |w| && n + 5 == MAX_LENGTH && Parse(OnePass("mcp__" + w[..n])) == Some((server, tool))
    ensures RecoverableCut(server, tool)
  {
    var w := s + ("__" + t);
    var i := CutIsSeparated(server, tool, w, n);
    assert w[0] == s[0];
    ServerIsLedByLetter(server, s);
    CutIsBetween(server, s, tool, t, n, i);
    CutBetween(server, s, tool, t, n);
  }

  lemma CutInTool(server: string, s: string, tool: string, t: string, n: nat, i: nat) returns (k: nat, m: nat)
    requires |s| < i && CutSeparated(server, tool, s + ("__" + t), n, i) && HyphenFree(s)
    ensures 0 < k < m <= |t| && t[k] != '_' && tool == Decode(OnePass(t[k..m]))
    ensures k == 1 ==> HyphenFree(s + "_") && Decode(s + "_") == server
  {
    var w := s + ("__" + t);
    k, m := i - |s|, n - |s| - 2;
    assert w[i + 2..n] == t[k..m] && w[i + 2] == t[k];
    assert k == 1 ==> w[..i] == s + "_";
  }

  lemma CutBetween(server: string, s: string, tool: string, t: string, n: nat)
    requires server != "" && AllAllowed(server) && IsLetter(server[0]) && s == Sanitize(server) && s != ""
    requires tool != "" && AllAllowed(tool) && t == Sanitize(tool) && HyphenFree(t) && t != ""
    requires n + 5 == MAX_LENGTH && n < |s + ("__" + t)| && CutSeparated(server, tool, s + ("__" + t), n, |s|)
    ensures RecoverableCut(server, tool)
  {
    CutBetweenNames(server, s, tool, t, n);
    ServerSurvives(server, s);
    ServerIsClean(server, s, t);
    CutToolIsRecoverable(tool, t, n - |s| - 2);
    FullNameIs(server, tool);
  }

  lemma CutBetweenNames(server: string, s: string, tool: string, t: string, n: nat)
    requires CutSeparated(server, tool, s + ("__" + t), n, |s|) && n < |s + ("__" + t)|
    ensures var m := n - |s| - 2;
      0 < m < |t| && t[0] != '_' && Decode(s) == server && Decode(OnePass(t[..m])) == tool
  {
    var w := s + ("__" + t);
    assert w[..|s|] == s && w[|s| + 2..n] == t[..n - |s| - 2] && w[|s| + 2] == t[0];
  }

  lemma CutToolIsRecoverable(tool: string, t: string, m: nat)
    requires tool != "" && AllAllowed(tool) && t == Sanitize(tool) && HyphenFree(t)
    requires m < |t| && t[0] != '_' && Decode(OnePass(t[..m])) == tool
    ensures |tool| > 2 && tool[|tool| - 2..] == "--" && IsAlphanumeric(tool[|tool| - 3]) && m + 1 == |t|
    ensures SurvivesMangling(tool[..|tool| - 2])
  {
    var c := CollapseHyphens(tool);
    SanitizedFrom(tool);
    EncodeStep(c);
    assert t == EncodeHyphens(c) && IsLetter(tool[0]);
    var q := CutToolShape(tool, c, m);
    CutToolIsClean(tool, c, q);
    assert tool[..|tool| - 2] == q && tool[|tool| - 2..] == "--" && tool[|tool| - 3] == q[|q| - 1];
  }

  // ---- and these do come back

  lemma CutToolSanitized(p: string)
    requires SurvivesMangling(p) && IsAlphanumeric(p[|p| - 1])
    ensures Sanitize(p + "--") == EncodeHyphens(p) + "___"
  {
    var tool := p + "--";
    assert AllAllowed(tool) && tool[0] == p[0];
    SanitizedFrom(tool);
    CollapseEnd(p);
    CollapseKeepsFirst(p);
    EncodeAppend(p, "-");
    EncodeStep("-");
    assert EncodeHyphens("-") == "___" + EncodeHyphens("");
  }

  lemma CutPasses(server: string, p: string)
    requires SurvivesMangling(server) && server[|server| - 1] != '_' && SurvivesMangling(p) && IsAlphanumeric(p[|p| - 1])
    ensures var s, x := EncodeHyphens(server), EncodeHyphens(p) + "__";
      OnePass("mcp__" + (s + ("__" + x))) == "mcp--" + (s + ("--" + (EncodeHyphens(p) + "--")))
  {
    var s, x := EncodeHyphens(server), EncodeHyphens(p) + "__";
    EncodedBegins(server);
    EncodedBegins(p);
    OnePassSeparator(x);
    CleanPasses(p, "__");
    assert OnePass("__") == "--" + OnePass("");
    CleanPasses(server, "__" + x);
    OnePassSeparator(s + ("__" + x));
    OnePassLetters(s + ("__" + x));
    Associates("mcp", "--", s + ("--" + (EncodeHyphens(p) + "--")));
    assert "mcp" + "--" == "mcp--";
  }

  lemma CutIsParsed(server: string, p: string)
    requires SurvivesMangling(server) && server[|server| - 1] != '_' && SurvivesMangling(p) && IsAlphanumeric(p[|p| - 1])
    ensures Parse(OnePass("mcp__" + (EncodeHyphens(server) + ("__" + (EncodeHyphens(p) + "__"))))) == Some((server, p + "--"))
  {
    CutPasses(server, p);
    EncodedIsIdentifier(server);
    EncodedBegins(server);
    ParseBuilt(EncodeHyphens(server), EncodeHyphens(p) + "--");
    DecodeClean(server);
    DecodeClean(p);
    DecodeHyphensEnd(EncodeHyphens(p));
  }

  lemma OneLess(s: string, e: string, n: nat)
    requires n + 1 == |s + ("__" + (e + "___"))|
    ensures (s + ("__" + (e + "___")))[..n] == s + ("__" + (e + "__"))
  {
  }

  lemma CutComesBack(server: string, tool: string, n: nat)
    requires RecoverableCut(server, tool) && n + 5 == MAX_LENGTH
    ensures Returned(server, tool) == Some((server, tool))
  {
    var p := tool[..|tool| - 2];
    assert tool == p + "--" && p[|p| - 1] == tool[|tool| - 3];
    SanitizeClean(server);
    CutToolSanitized(p);
    CutForm(server, tool, n);
    OneLess(EncodeHyphens(server), EncodeHyphens(p), n);
    CutIsParsed(server, p);
  }

  /** Of all names whose full name is cut, exactly these come back. */
  lemma CutNamesAreRecovered(server: string, tool: string)
    requires |FullName(server, tool)| > MAX_LENGTH
    ensures Returned(server, tool) == Some((server, tool)) <==> RecoverableCut(server, tool)
  {
    if Returned(server, tool) == Some((server, tool)) { CutIsRecoverable(server, tool, MAX_LENGTH - 5); }
    if RecoverableCut(server, tool) { CutComesBack(server, tool, MAX_LENGTH - 5); }
  }
}
