/**
 * Decoding HTML entities by ordered passes (src/utils/text-normalization.ts, lines 85-99).
 */
module Entities {
  import opened Text

  datatype Entity = Entity(name: string, c: char)

  /** The entities in the order of their passes; the ampersand comes last. */
  const TABLE: seq<Entity> := [
    Entity("&lt;", '<'), Entity("&gt;", '>'), Entity("&quot;", '"'), Entity("&#39;", '\''), Entity("&apos;", '\''),
    Entity("&#91;", '['), Entity("&#93;", ']'), Entity("&lsqb;", '['), Entity("&rsqb;", ']'), Entity("&amp;", '&')]

  function UnescapeHtmlEntities(text: string): string {
    if text == "" then text
    else
      var a := ReplaceAll(text, "&lt;", "<");
      var b := ReplaceAll(a, "&gt;", ">");
      var c := ReplaceAll(b, "&quot;", "\"");
      var d := ReplaceAll(c, "&#39;", "'");
      var e := ReplaceAll(d, "&apos;", "'");
      var f := ReplaceAll(e, "&#91;", "[");
      var g := ReplaceAll(f, "&#93;", "]");
      var h := ReplaceAll(g, "&lsqb;", "[");
      var i := ReplaceAll(h, "&rsqb;", "]");
      ReplaceAll(i, "&amp;", "&")
  }

  // ---------------------------------------------------------------- one pass

  /** The first entity of the table that the text begins with, or the table's length. */
  function Matching(table: seq<Entity>, text: string): (j: nat)
    ensures j <= |table|
    ensures j < |table| ==> table[j].name <= text
    ensures forall i :: 0 <= i < j ==> !(table[i].name <= text)
    decreases |table|
  {
    if table == [] then 0
    else
      var last := |table| - 1;
      var j := Matching(table[..last], text);
      if j < last || table[last].name <= text then j else |table|
  }

  /** One left-to-right pass that decodes each entity of the table once. */
  function OnePass(table: seq<Entity>, text: string): string
    requires ValidTable(table)
    decreases |text|
  {
    if text == "" then ""
    else
      var j := Matching(table, text);
      if j < |table| then
        assert WellFormed(table[j]);
        [table[j].c] + OnePass(table, text[|table[j].name|..])
      else [text[0]] + OnePass(table, text[1..])
  }

  /** A character that decoding may write before the last pass. */
  predicate Decoded(c: char) {
    c == '<' || c == '>' || c == '"' || c == '\'' || c == '[' || c == ']'
  }

  /** An ampersand, then characters that are neither ampersands nor decoded ones, the last a semicolon. */
  predicate WellFormed(entity: Entity) {
    var name := entity.name;
    |name| >= 2 && name[0] == '&' && name[|name| - 1] == ';'
    && forall i :: 1 <= i < |name| ==> name[i] != '&' && !Decoded(name[i]) && (i < |name| - 1 ==> name[i] != ';')
  }

  predicate ValidTable(table: seq<Entity>) {
    (forall i :: 0 <= i < |table| ==> WellFormed(table[i]))
    && (forall i :: 0 <= i < |table| - 1 ==> Decoded(table[i].c))
    && forall i, j :: 0 <= i < j < |table| ==> table[i].name != table[j].name
  }

  lemma TableIsValid()
    ensures ValidTable(TABLE)
  {
    FirstEntries();
    LastEntries();
    NamesDiffer();
    forall i | 0 <= i < |TABLE| ensures WellFormed(TABLE[i]) && (i < |TABLE| - 1 ==> Decoded(TABLE[i].c)) {}
  }

  lemma NamesDiffer()
    ensures |TABLE| == 10
    ensures forall i, j :: 0 <= i < j < |TABLE| ==> TABLE[i].name != TABLE[j].name
  {
  }

  lemma FirstEntries()
    ensures WellFormed(TABLE[0]) && WellFormed(TABLE[1]) && WellFormed(TABLE[2]) && WellFormed(TABLE[3]) && WellFormed(TABLE[4])
  {
  }

  lemma LastEntries()
    ensures WellFormed(TABLE[5]) && WellFormed(TABLE[6]) && WellFormed(TABLE[7]) && WellFormed(TABLE[8]) && WellFormed(TABLE[9])
  {
  }

  /** No entity begins another, since each ends at its only semicolon. */
  lemma NoEntityBeginsAnother(a: Entity, b: Entity, text: string)
    requires WellFormed(a) && WellFormed(b) && a.name <= text && b.name <= text
    ensures a.name == b.name
  {
    assert text[|a.name| - 1] == ';' && text[|b.name| - 1] == ';';
    forall i | 0 <= i < |a.name| - 1 ensures text[i] != ';' { assert text[i] == a.name[i]; }
    forall i | 0 <= i < |b.name| - 1 ensures text[i] != ';' { assert text[i] == b.name[i]; }
  }

  lemma MatchesOnlyAtAmpersand(table: seq<Entity>, text: string)
    requires ValidTable(table) && text != "" && text[0] != '&'
    ensures Matching(table, text) == |table|
  {
    forall i | 0 <= i < |table| ensures !(table[i].name <= text) { assert WellFormed(table[i]); }
  }

  // ---------------------------------------------------------------- the passes are one pass

  /** The text after a pass for each entity of the table, in order. */
  function Passes(table: seq<Entity>, text: string): string
    requires ValidTable(table)
  {
    if table == [] then text
    else
      var last := table[|table| - 1];
      assert WellFormed(last);
      ReplaceAll(Passes(table[..|table| - 1], text), last.name, [last.c])
  }

  /**
   * The ten ordered replacements decode each entity of the text once, left to right: what
   * one of them writes is never read as an entity by a later one.
   */
  lemma PassesAreOnePass(text: string)
    ensures ValidTable(TABLE) && UnescapeHtmlEntities(text) == OnePass(TABLE, text)
  {
    TableIsValid();
    if text != "" {
      ChainFive(text);
      ChainTen(text);
      assert TABLE[..10] == TABLE;
      PassesDecodeOnce(TABLE, text);
    }
  }

  lemma PassAt(k: nat, text: string)
    requires k < |TABLE|
    ensures ValidTable(TABLE) && ValidTable(TABLE[..k]) && ValidTable(TABLE[..k + 1])
    ensures TABLE[k].name != "" && Passes(TABLE[..k + 1], text) == ReplaceAll(Passes(TABLE[..k], text), TABLE[k].name, [TABLE[k].c])
  {
    TableIsValid();
    assert TABLE[..k + 1][..k] == TABLE[..k] && TABLE[..k + 1][k] == TABLE[k];
    assert WellFormed(TABLE[k]);
  }

  lemma ChainFive(text: string)
    ensures ValidTable(TABLE[..5])
    ensures Passes(TABLE[..5], text) ==
      ReplaceAll(ReplaceAll(ReplaceAll(ReplaceAll(ReplaceAll(text, "&lt;", "<"), "&gt;", ">"), "&quot;", "\""), "&#39;", "'"), "&apos;", "'")
  {
    assert TABLE[..0] == [];
    PassAt(0, text); PassAt(1, text); PassAt(2, text); PassAt(3, text); PassAt(4, text);
  }

  lemma ChainTen(text: string)
    ensures ValidTable(TABLE[..5]) && ValidTable(TABLE[..10])
    ensures Passes(TABLE[..10], text) ==
      ReplaceAll(ReplaceAll(ReplaceAll(ReplaceAll(ReplaceAll(Passes(TABLE[..5], text),
        "&#91;", "["), "&#93;", "]"), "&lsqb;", "["), "&rsqb;", "]"), "&amp;", "&")
  {
    PassAt(5, text); PassAt(6, text); PassAt(7, text); PassAt(8, text); PassAt(9, text);
  }

  lemma {:induction false} PassesDecodeOnce(table: seq<Entity>, text: string)
    requires ValidTable(table)
    ensures Passes(table, text) == OnePass(table, text)
    decreases |table|
  {
    if table == [] {
      NoPassNoChange(text);
    } else {
      var before := table[..|table| - 1];
      PassesDecodeOnce(before, text);
      assert table == before + [table[|table| - 1]];
      NextPass(before, table[|table| - 1], text);
    }
  }

  lemma {:induction false} NoPassNoChange(text: string)
    ensures OnePass([], text) == text
  {
    if text != "" {
      NoPassNoChange(text[1..]);
      assert text == [text[0]] + text[1..];
    }
  }

  /** All entities of the table write decoded characters: none of them is the ampersand. */
  predicate AllDecoded(table: seq<Entity>) {
    forall i :: 0 <= i < |table| ==> Decoded(table[i].c)
  }

  /** Replacing the next entity in a text decoded so far decodes it in the same single pass. */
  lemma {:induction false} NextPass(table: seq<Entity>, next: Entity, text: string)
    requires ValidTable(table + [next])
    ensures ValidTable(table) && WellFormed(next)
    ensures ReplaceAll(OnePass(table, text), next.name, [next.c]) == OnePass(table + [next], text)
    decreases |text|
  {
    SplitTable(table, next);
    if text != "" {
      var j := Matching(table, text);
      MatchingAppend(table, next, text);
      if j < |table| {
        var rest := text[|table[j].name|..];
        assert WellFormed(table[j]) && (table + [next])[j] == table[j];
        NextPass(table, next, rest);
        PassesOver(table[j].c, OnePass(table, rest), next);
      } else if next.name <= text {
        var rest := text[|next.name|..];
        NextPass(table, next, rest);
        DueEntity(table, next, text);
      } else {
        NextPass(table, next, text[1..]);
        PlainCharacter(table, next, text);
      }
    }
  }

  lemma MatchingAppend(table: seq<Entity>, next: Entity, text: string)
    ensures var j := Matching(table, text);
      Matching(table + [next], text) == if j < |table| then j else if next.name <= text then |table| else |table| + 1
  {
    assert (table + [next])[..|table|] == table;
  }

  lemma DueEntity(table: seq<Entity>, next: Entity, text: string)
    requires ValidTable(table + [next]) && ValidTable(table) && WellFormed(next)
    requires next.name <= text && Matching(table, text) == |table|
    requires ReplaceAll(OnePass(table, text[|next.name|..]), next.name, [next.c]) == OnePass(table + [next], text[|next.name|..])
    ensures ReplaceAll(OnePass(table, text), next.name, [next.c]) == OnePass(table + [next], text)
  {
    var rest := text[|next.name|..];
    MatchingAppend(table, next, text);
    assert text == next.name + rest;
    CopiesEntity(table, next, rest);
    ReplaceHit(OnePass(table, rest), next.name, [next.c]);
    assert (table + [next])[|table|] == next;
  }

  lemma PlainCharacter(table: seq<Entity>, next: Entity, text: string)
    requires ValidTable(table + [next]) && ValidTable(table) && WellFormed(next) && AllDecoded(table)
    requires text != "" && Matching(table, text) == |table| && !(next.name <= text)
    requires ReplaceAll(OnePass(table, text[1..]), next.name, [next.c]) == OnePass(table + [next], text[1..])
    ensures ReplaceAll(OnePass(table, text), next.name, [next.c]) == OnePass(table + [next], text)
  {
    var rest := OnePass(table, text[1..]);
    MatchingAppend(table, next, text);
    Reflects(table, next.name[1..], text[1..]);
    FrontReflects(next.name, text[0], rest, text[1..]);
    assert text == [text[0]] + text[1..];
    PassesOver(text[0], rest, next);
    Unmatched(table, text);
    Unmatched(table + [next], text);
  }

  lemma Unmatched(table: seq<Entity>, text: string)
    requires ValidTable(table) && text != "" && Matching(table, text) == |table|
    ensures OnePass(table, text) == [text[0]] + OnePass(table, text[1..])
  {
  }

  lemma SplitTable(table: seq<Entity>, next: Entity)
    requires ValidTable(table + [next])
    ensures ValidTable(table) && WellFormed(next) && AllDecoded(table)
  {
    var all := table + [next];
    assert forall i :: 0 <= i < |table| ==> all[i] == table[i];
    assert all[|table|] == next;
  }

  lemma FrontReflects(name: string, c: char, decoded: string, rest: string)
    requires name != "" && (name[1..] <= decoded ==> name[1..] <= rest)
    ensures name <= [c] + decoded ==> name <= [c] + rest
  {
    if name <= [c] + decoded {
      assert name[1..] <= ([c] + decoded)[1..] == decoded;
      assert name == [name[0]] + name[1..];
    }
  }

  lemma PassesOver(c: char, rest: string, next: Entity)
    requires next.name != "" && !(next.name <= [c] + rest)
    ensures ReplaceAll([c] + rest, next.name, [next.c]) == [c] + ReplaceAll(rest, next.name, [next.c])
  {
    assert ([c] + rest)[1..] == rest;
  }

  /** Text without ampersands and decoded characters that decoding leaves was there before. */
  lemma {:induction false} Reflects(table: seq<Entity>, w: string, text: string)
    requires ValidTable(table) && AllDecoded(table)
    requires forall i :: 0 <= i < |w| ==> w[i] != '&' && !Decoded(w[i])
    ensures w <= OnePass(table, text) ==> w <= text
  {
    if w != "" && text != "" {
      var j := Matching(table, text);
      if j < |table| {
        assert OnePass(table, text)[0] == table[j].c;
      } else {
        Reflects(table, w[1..], text[1..]);
        FrontReflects(w, text[0], OnePass(table, text[1..]), text[1..]);
        assert text == [text[0]] + text[1..];
      }
    }
  }

  /** An entity that is not yet due is copied whole. */
  lemma CopiesEntity(table: seq<Entity>, next: Entity, rest: string)
    requires ValidTable(table) && WellFormed(next) && Matching(table, next.name + rest) == |table|
    ensures OnePass(table, next.name + rest) == next.name + OnePass(table, rest)
  {
    var first, body := next.name[0], next.name[1..];
    assert next.name == [first] + body;
    var text := next.name + rest;
    assert text[0] == first && text[1..] == body + rest;
    CopiesPlain(table, body, rest);
    Associates([first], body, OnePass(table, rest));
  }

  lemma {:induction false} CopiesPlain(table: seq<Entity>, w: string, rest: string)
    requires ValidTable(table) && forall i :: 0 <= i < |w| ==> w[i] != '&'
    ensures OnePass(table, w + rest) == w + OnePass(table, rest)
  {
    if w == "" {
      assert w + rest == rest;
    } else {
      assert (w + rest)[0] == w[0];
      MatchesOnlyAtAmpersand(table, w + rest);
      assert (w + rest)[1..] == w[1..] + rest;
      CopiesPlain(table, w[1..], rest);
      assert w == [w[0]] + w[1..];
      Associates([w[0]], w[1..], OnePass(table, rest));
    }
  }

  // ---------------------------------------------------------------- decoding undoes encoding

  /** A way to write one character: by an entity of the table, or plainly. */
  datatype Spelling = Named(j: nat) | Plain(c: char)

  predicate Legal(spellings: seq<Spelling>) {
    forall i :: 0 <= i < |spellings| ==>
      match spellings[i] case Named(j) => j < |TABLE| case Plain(c) => c != '&'
  }

  /** The text as it is written, and as it is meant. */
  function Written(spellings: seq<Spelling>): string
    requires Legal(spellings)
  {
    if spellings == [] then ""
    else (match spellings[0] case Named(j) => TABLE[j].name case Plain(c) => [c]) + Written(spellings[1..])
  }

  function Meant(spellings: seq<Spelling>): string
    requires Legal(spellings)
  {
    if spellings == [] then ""
    else [match spellings[0] case Named(j) => TABLE[j].c case Plain(c) => c] + Meant(spellings[1..])
  }

  /** However a text is encoded, with its ampersands always as entities, decoding gives it back. */
  lemma DecodingUndoesEncoding(spellings: seq<Spelling>)
    requires Legal(spellings)
    ensures UnescapeHtmlEntities(Written(spellings)) == Meant(spellings)
  {
    PassesAreOnePass(Written(spellings));
    OnePassDecodes(TABLE, spellings);
  }

  lemma {:induction false} OnePassDecodes(table: seq<Entity>, spellings: seq<Spelling>)
    requires Legal(spellings) && ValidTable(table) && table == TABLE
    ensures OnePass(table, Written(spellings)) == Meant(spellings)
    decreases |spellings|
  {
    if spellings != [] {
      var rest := Written(spellings[1..]);
      OnePassDecodes(table, spellings[1..]);
      match spellings[0]
      case Named(j) => ReadsEntity(table, j, rest);
      case Plain(c) => CopiesPlain(table, [c], rest);
    }
  }

  lemma ReadsEntity(table: seq<Entity>, j: nat, rest: string)
    requires ValidTable(table) && j < |table|
    ensures OnePass(table, table[j].name + rest) == [table[j].c] + OnePass(table, rest)
  {
    var text := table[j].name + rest;
    var i := Matching(table, text);
    assert WellFormed(table[j]) && table[j].name <= text;
    assert i < |table| && WellFormed(table[i]);
    NoEntityBeginsAnother(table[i], table[j], text);
    assert i == j;
    assert text[|table[j].name|..] == rest;
  }

  /** Every text can be written so: the special characters by name, all others plainly. */
  function Encoding(text: string): (spellings: seq<Spelling>)
    ensures Legal(spellings) && Meant(spellings) == text
  {
    if text == "" then []
    else
      var first := match text[0]
        case '<' => Named(0)
        case '>' => Named(1)
        case '"' => Named(2)
        case '\'' => Named(3)
        case '[' => Named(5)
        case ']' => Named(6)
        case '&' => Named(9)
        case c => Plain(c);
      assert text == [text[0]] + text[1..];
      var spellings := [first] + Encoding(text[1..]);
      assert spellings[1..] == Encoding(text[1..]);
      spellings
  }

  /** The ten entities and what they stand for. */
  predicate StandsFor(name: string, c: char) {
    || (name == "&lt;" && c == '<') || (name == "&gt;" && c == '>') || (name == "&quot;" && c == '"')
    || (name == "&#39;" && c == '\'') || (name == "&apos;" && c == '\'')
    || (name == "&#91;" && c == '[') || (name == "&#93;" && c == ']') || (name == "&lsqb;" && c == '[') || (name == "&rsqb;" && c == ']')
    || (name == "&amp;" && c == '&')
  }

  /** Each is decoded wherever it stands, and nothing around it. */
  lemma EntityIsDecoded(a: string, name: string, c: char, b: string)
    requires '&' !in a && '&' !in b && StandsFor(name, c)
    ensures UnescapeHtmlEntities(a + (name + b)) == a + ([c] + b)
  {
    PassesAreOnePass(a + (name + b));
    var j := EntryFor(name, c);
    OneEntityDecoded(TABLE, j, a, b);
  }

  lemma EntryFor(name: string, c: char) returns (j: nat)
    requires StandsFor(name, c)
    ensures j < |TABLE| && TABLE[j] == Entity(name, c)
  {
    j := if name == "&lt;" then 0 else if name == "&gt;" then 1 else if name == "&quot;" then 2 else if name == "&#39;" then 3
         else if name == "&apos;" then 4 else if name == "&#91;" then 5 else if name == "&#93;" then 6 else if name == "&lsqb;" then 7
         else if name == "&rsqb;" then 8 else 9;
  }

  lemma OneEntityDecoded(table: seq<Entity>, j: nat, a: string, b: string)
    requires ValidTable(table) && j < |table| && '&' !in a && '&' !in b
    ensures OnePass(table, a + (table[j].name + b)) == a + ([table[j].c] + b)
  {
    CopiesPlain(table, a, table[j].name + b);
    ReadsEntity(table, j, b);
    CopiesPlain(table, b, "");
    assert b + "" == b;
    assert OnePass(table, "") == "";
  }
}
