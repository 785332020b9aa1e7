/**
 * What sanitizing makes of a name, told by how the name is written
 * (src/utils/mcp-name.ts, lines 85-115).
 */
module WrittenNames {
  import opened Text
  import opened Characters
  import opened McpName

  /** A letter, digit or underscore; blanks in a row; hyphens in a row; or a character that is none of these. */
  datatype Piece = Kept(c: char) | Blanks(text: string) | Hyphens(text: string) | Dropped(c: char)

  predicate IsDropped(c: char) {
    !IsNameChar(c) && !IsBlank(c) && c != '-'
  }

  /** Hyphens, with dropped characters among them. */
  predicate IsRow(text: string) {
    forall i :: 0 <= i < |text| ==> text[i] == '-' || IsDropped(text[i])
  }

  predicate ValidPiece(p: Piece) {
    match p
    case Kept(c) => IsNameChar(c)
    case Blanks(text) => text != "" && AllBlank(text)
    case Hyphens(text) => text != "" && text[0] == '-' && IsRow(text)
    case Dropped(c) => IsDropped(c)
  }

  /** A row of blanks or hyphens goes on as far as it can. */
  predicate Apart(p: Piece, q: Piece) {
    (p.Blanks? ==> !q.Blanks?) && (p.Hyphens? ==> q.Kept? || q.Blanks?)
  }

  predicate ValidName(ps: seq<Piece>) {
    (forall i :: 0 <= i < |ps| ==> ValidPiece(ps[i])) && forall i :: 0 <= i < |ps| - 1 ==> Apart(ps[i], ps[i + 1])
  }

  function Written(p: Piece): string {
    match p
    case Kept(c) => [c]
    case Blanks(text) => text
    case Hyphens(text) => text
    case Dropped(c) => [c]
  }

  function WrittenName(ps: seq<Piece>): string {
    if ps == [] then "" else Written(ps[0]) + WrittenName(ps[1..])
  }

  function Shown(p: Piece): string {
    match p
    case Kept(c) => [c]
    case Blanks(_) => "_"
    case Hyphens(_) => "___"
    case Dropped(_) => ""
  }

  function ShownName(ps: seq<Piece>): string {
    if ps == [] then "" else Shown(ps[0]) + ShownName(ps[1..])
  }

  /**
   * Characters are kept, blanks in a row become one underscore and hyphens in a row three,
   * and the rest is dropped; a digit in front gets an underscore before it, and a name of
   * which nothing is left is called "_unnamed".
   */
  lemma WrittenNameIsSanitized(ps: seq<Piece>)
    requires ValidName(ps)
    ensures var shown := ShownName(ps);
      Sanitize(WrittenName(ps)) ==
        if ps == [] then "_"
        else if shown == "" then "_unnamed"
        else if IsDecimal(shown[0]) then "_" + shown
        else shown
  {
    Passes(ps);
    ShownIsAllowed(ps);
    if ps != [] { assert |Written(ps[0])| > 0; }
    var shown := ShownName(ps);
    if shown != "" {
      RangeOfDigits(shown[0]);
      RangesOfLetters(shown[0]);
    }
  }

  lemma {:induction false} ShownIsAllowed(ps: seq<Piece>)
    requires ValidName(ps)
    ensures forall i :: 0 <= i < |ShownName(ps)| ==> IsNameChar(ShownName(ps)[i])
  {
    if ps != [] { ShownIsAllowed(ps[1..]); }
  }

  /** The four replacements, piece by piece. */
  lemma {:induction false} Passes(ps: seq<Piece>)
    requires ValidName(ps)
    ensures EncodeHyphens(CollapseHyphens(OnlyAllowed(SpacesToUnderscores(WrittenName(ps))))) == ShownName(ps)
  {
    if ps != [] {
      var rest := WrittenName(ps[1..]);
      Passes(ps[1..]);
      NextBegins(ps);
      match ps[0]
      case Kept(c) => KeptPasses(c, rest);
      case Blanks(text) => BlanksPass(text, rest);
      case Hyphens(text) => HyphensPass(text, rest);
      case Dropped(c) => DroppedPasses(c, rest);
    }
  }

  function Passed(name: string): string {
    OnlyAllowed(SpacesToUnderscores(name))
  }

  lemma NextBegins(ps: seq<Piece>)
    requires ps != [] && ValidName(ps)
    ensures var rest := WrittenName(ps[1..]);
      && (ps[0].Blanks? && rest != "" ==> !IsSpace(rest[0]))
      && (ps[0].Hyphens? && rest != "" ==> IsNameChar(rest[0]) || IsSpace(rest[0]))
  {
    if |ps| > 1 {
      assert Apart(ps[0], ps[1]) && ValidPiece(ps[1]);
      FirstOf(ps[1]);
      assert WrittenName(ps[1..])[0] == Written(ps[1])[0];
    }
  }

  lemma FirstOf(p: Piece)
    requires ValidPiece(p)
    ensures var w := Written(p);
      && w != "" && (!p.Blanks? ==> !IsSpace(w[0])) && (p.Blanks? ==> IsSpace(w[0])) && (p.Kept? ==> IsNameChar(w[0]))
  {
    var c := Written(p)[0];
    SpaceIsBlank(c);
    if p.Kept? { KeptIsNotSpace(c); }
  }

  lemma KeptIsNotSpace(c: char)
    requires IsNameChar(c)
    ensures !IsSpace(c)
  {
    RangeOfDigits(c);
    RangesOfLetters(c);
    RangesAreNotSpace(c);
  }

  lemma RangesAreNotSpace(c: char)
    requires '0' <= c <= '9' || 'a' <= c <= 'z' || 'A' <= c <= 'Z' || c == '_'
    ensures !IsSpace(c)
  {
  }

  lemma AllowedIs(c: char)
    ensures IsAllowed(c) <==> IsNameChar(c) || c == '-'
  {
    RangeOfDigits(c);
    RangesOfLetters(c);
  }

  lemma OtherPasses(c: char, rest: string)
    requires !IsBlank(c)
    ensures Passed([c] + rest) == (if IsNameChar(c) || c == '-' then [c] else "") + Passed(rest)
  {
    SpaceIsBlank(c);
    AllowedIs(c);
    assert ([c] + rest)[1..] == rest;
    var s := SpacesToUnderscores(rest);
    assert ([c] + s)[1..] == s;
  }

  lemma KeptPasses(c: char, rest: string)
    requires IsNameChar(c)
    ensures EncodeHyphens(CollapseHyphens(Passed([c] + rest))) == [c] + EncodeHyphens(CollapseHyphens(Passed(rest)))
  {
    OtherPasses(c, rest);
    OneCharacter(c, Passed(rest));
  }

  lemma OneCharacter(c: char, r: string)
    requires c != '-'
    ensures EncodeHyphens(CollapseHyphens([c] + r)) == [c] + EncodeHyphens(CollapseHyphens(r))
  {
    assert ([c] + r)[1..] == r;
    EncodeStep([c] + CollapseHyphens(r));
    assert ([c] + CollapseHyphens(r))[1..] == CollapseHyphens(r);
  }

  lemma DroppedPasses(c: char, rest: string)
    requires IsDropped(c)
    ensures EncodeHyphens(CollapseHyphens(Passed([c] + rest))) == "" + EncodeHyphens(CollapseHyphens(Passed(rest)))
  {
    OtherPasses(c, rest);
    assert "" + Passed(rest) == Passed(rest);
  }

  lemma BlanksPass(text: string, rest: string)
    requires text != "" && AllBlank(text) && (rest != "" ==> !IsSpace(rest[0]))
    ensures EncodeHyphens(CollapseHyphens(Passed(text + rest))) == "_" + EncodeHyphens(CollapseHyphens(Passed(rest)))
  {
    OneUnderscore(text, rest);
    var s := SpacesToUnderscores(rest);
    assert ("_" + s)[1..] == s;
    OneCharacter('_', Passed(rest));
  }

  lemma {:induction false} OneUnderscore(text: string, rest: string)
    requires text != "" && AllBlank(text) && (rest != "" ==> !IsSpace(rest[0]))
    ensures SpacesToUnderscores(text + rest) == "_" + SpacesToUnderscores(rest)
  {
    var s := text + rest;
    SpaceIsBlank(s[0]);
    if |text| > 1 {
      SpaceIsBlank(text[1]);
      assert s[1] == text[1] && s[1..] == text[1..] + rest;
      OneUnderscore(text[1..], rest);
    } else {
      assert s[1..] == rest;
    }
  }

  function OnlyHyphens(text: string): string {
    if text == "" then "" else (if text[0] == '-' then "-" else "") + OnlyHyphens(text[1..])
  }

  lemma {:induction false} HyphensAreLeft(text: string, rest: string)
    requires IsRow(text)
    ensures Passed(text + rest) == OnlyHyphens(text) + Passed(rest)
  {
    if text == "" {
      assert text + rest == rest;
    } else {
      assert text + rest == [text[0]] + (text[1..] + rest);
      RowCharacterPasses(text[0], text[1..] + rest);
      HyphensAreLeft(text[1..], rest);
      Associates(if text[0] == '-' then "-" else "", OnlyHyphens(text[1..]), Passed(rest));
    }
  }

  lemma RowCharacterPasses(c: char, rest: string)
    requires c == '-' || IsDropped(c)
    ensures Passed([c] + rest) == (if c == '-' then "-" else "") + Passed(rest)
  {
    OtherPasses(c, rest);
  }

  lemma {:induction false} AllHyphens(text: string)
    ensures forall i :: 0 <= i < |OnlyHyphens(text)| ==> OnlyHyphens(text)[i] == '-'
  {
    if text != "" { AllHyphens(text[1..]); }
  }

  lemma {:induction false} RowCollapses(row: string, r: string)
    requires row != "" && (forall i :: 0 <= i < |row| ==> row[i] == '-') && (r != "" ==> r[0] != '-')
    ensures CollapseHyphens(row + r) == "-" + CollapseHyphens(r)
  {
    if |row| > 1 {
      assert (row + r)[1..] == row[1..] + r && (row + r)[1] == row[1];
      RowCollapses(row[1..], r);
    } else {
      assert (row + r)[1..] == r;
    }
  }

  lemma HyphensPass(text: string, rest: string)
    requires text != "" && text[0] == '-' && IsRow(text)
    requires rest != "" ==> IsNameChar(rest[0]) || IsSpace(rest[0])
    ensures EncodeHyphens(CollapseHyphens(Passed(text + rest))) == "___" + EncodeHyphens(CollapseHyphens(Passed(rest)))
  {
    HyphensAreLeft(text, rest);
    AllHyphens(text);
    NoHyphenFirst(rest);
    RowCollapses(OnlyHyphens(text), Passed(rest));
    EncodeStep("-" + CollapseHyphens(Passed(rest)));
    assert ("-" + CollapseHyphens(Passed(rest)))[1..] == CollapseHyphens(Passed(rest));
  }

  lemma {:induction false} NoHyphenFirst(rest: string)
    requires rest != "" ==> IsNameChar(rest[0]) || IsSpace(rest[0])
    ensures Passed(rest) != "" ==> Passed(rest)[0] != '-'
  {
    if rest != "" {
      SpaceIsBlank(rest[0]);
      AllowedIs(rest[0]);
      if |rest| > 1 && IsSpace(rest[0]) && IsSpace(rest[1]) {
        NoHyphenFirst(rest[1..]);
        assert SpacesToUnderscores(rest) == SpacesToUnderscores(rest[1..]);
      } else {
        var c := if IsSpace(rest[0]) then '_' else rest[0];
        assert SpacesToUnderscores(rest) == [c] + SpacesToUnderscores(rest[1..]) && IsAllowed(c);
      }
    }
  }

  /** And every name is written like this. */
  lemma {:induction false} EveryNameIsWritten(s: string) returns (ps: seq<Piece>)
    ensures ValidName(ps) && WrittenName(ps) == s
  {
    if s == "" {
      ps := [];
    } else {
      ps := EveryNameIsWritten(s[1..]);
      ps := Before(s[0], ps);
    }
  }

  /** One more character in front of a written name. */
  lemma Before(c: char, ps: seq<Piece>) returns (more: seq<Piece>)
    requires ValidName(ps)
    ensures ValidName(more) && WrittenName(more) == [c] + WrittenName(ps)
  {
    if IsNameChar(c) {
      more := Put(Kept(c), ps);
    } else if IsBlank(c) {
      more := BlankBefore(c, ps);
    } else if c == '-' {
      var text, rest := Row(ps);
      more := Put(Hyphens("-" + text), rest);
    } else {
      more := Put(Dropped(c), ps);
    }
  }

  lemma BlankBefore(c: char, ps: seq<Piece>) returns (more: seq<Piece>)
    requires ValidName(ps) && IsBlank(c)
    ensures ValidName(more) && WrittenName(more) == [c] + WrittenName(ps)
  {
    if ps != [] && ps[0].Blanks? {
      assert ValidPiece(ps[0]);
      more := Put(Blanks([c] + ps[0].text), ps[1..]);
      Associates([c], ps[0].text, WrittenName(ps[1..]));
    } else {
      more := Put(Blanks([c]), ps);
    }
  }

  lemma Put(p: Piece, ps: seq<Piece>) returns (more: seq<Piece>)
    requires ValidPiece(p) && ValidName(ps) && (ps != [] ==> Apart(p, ps[0]))
    ensures more == [p] + ps && ValidName(more) && WrittenName(more) == Written(p) + WrittenName(ps)
  {
    more := [p] + ps;
    assert more[1..] == ps;
  }

  /** The dropped characters and hyphens that a name begins with. */
  lemma {:induction false} Row(ps: seq<Piece>) returns (text: string, rest: seq<Piece>)
    requires ValidName(ps)
    ensures IsRow(text) && ValidName(rest) && text + WrittenName(rest) == WrittenName(ps)
    ensures rest != [] ==> rest[0].Kept? || rest[0].Blanks?
  {
    if ps == [] || ps[0].Kept? || ps[0].Blanks? {
      text, rest := "", ps;
    } else {
      assert ValidPiece(ps[0]);
      text, rest := Row(ps[1..]);
      text := Written(ps[0]) + text;
    }
  }

  /** A built name is the prefix and both names with two hyphens between, as far as 64 characters go. */
  lemma BuiltNameIsWritten(server: string, tool: string)
    ensures var full := "mcp--" + Sanitize(server) + "--" + Sanitize(tool);
      Build(server, tool) == if |full| <= 64 then full else full[..64]
  {
    var full := "mcp--" + Sanitize(server) + "--" + Sanitize(tool);
    SeparatedNames(Sanitize(server), Sanitize(tool));
    assert FullName(server, tool) == full;
  }

  lemma SeparatedNames(a: string, b: string)
    ensures PREFIX + SEPARATOR + a + SEPARATOR + b == "mcp--" + a + "--" + b
  {
    assert PREFIX + SEPARATOR == "mcp--";
  }

  /** Only names that begin with the mangled prefix are normalised. */
  lemma OthersAreNotNormalized(name: string)
    requires |name| < 5 || name[..5] != "mcp__"
    ensures NormalizeToolName(name) == name
  {
  }
}
