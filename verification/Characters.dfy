/** Character classes of the host language, each character written out. */
module Characters {
  import opened Text

  /** What `\s` matches and `trim` strips. */
  predicate IsBlank(c: char) {
    c == ' ' || c == '\t' || c == '\n' || c == '\U{0B}' || c == '\U{0C}' || c == '\r' || c == '\U{A0}' || c == '\U{1680}'
    || c == '\U{2000}' || c == '\U{2001}' || c == '\U{2002}' || c == '\U{2003}' || c == '\U{2004}' || c == '\U{2005}'
    || c == '\U{2006}' || c == '\U{2007}' || c == '\U{2008}' || c == '\U{2009}' || c == '\U{200A}' || c == '\U{2028}'
    || c == '\U{2029}' || c == '\U{202F}' || c == '\U{205F}' || c == '\U{3000}' || c == '\U{FEFF}'
  }

  /** What `\d` matches. */
  predicate IsDecimal(c: char) {
    c == '0' || c == '1' || c == '2' || c == '3' || c == '4' || c == '5' || c == '6' || c == '7' || c == '8' || c == '9'
  }

  predicate IsSmallLetter(c: char) {
    c == 'a' || c == 'b' || c == 'c' || c == 'd' || c == 'e' || c == 'f' || c == 'g' || c == 'h' || c == 'i' || c == 'j'
    || c == 'k' || c == 'l' || c == 'm' || c == 'n' || c == 'o' || c == 'p' || c == 'q' || c == 'r' || c == 's' || c == 't'
    || c == 'u' || c == 'v' || c == 'w' || c == 'x' || c == 'y' || c == 'z'
  }

  predicate IsCapitalLetter(c: char) {
    c == 'A' || c == 'B' || c == 'C' || c == 'D' || c == 'E' || c == 'F' || c == 'G' || c == 'H' || c == 'I' || c == 'J'
    || c == 'K' || c == 'L' || c == 'M' || c == 'N' || c == 'O' || c == 'P' || c == 'Q' || c == 'R' || c == 'S' || c == 'T'
    || c == 'U' || c == 'V' || c == 'W' || c == 'X' || c == 'Y' || c == 'Z'
  }

  /** Letters of both cases, digits and the underscore. */
  predicate IsNameChar(c: char) {
    IsSmallLetter(c) || IsCapitalLetter(c) || IsDecimal(c) || c == '_'
  }

  /** A small letter and its capital. */
  predicate IsCapitalOf(c: char, s: char) {
    (s == 'a' && c == 'A') || (s == 'b' && c == 'B') || (s == 'c' && c == 'C') || (s == 'd' && c == 'D') || (s == 'e' && c == 'E') || (s == 'f' && c == 'F')
    || (s == 'g' && c == 'G') || (s == 'h' && c == 'H') || (s == 'i' && c == 'I') || (s == 'j' && c == 'J') || (s == 'k' && c == 'K') || (s == 'l' && c == 'L')
    || (s == 'm' && c == 'M') || (s == 'n' && c == 'N') || (s == 'o' && c == 'O') || (s == 'p' && c == 'P') || (s == 'q' && c == 'Q') || (s == 'r' && c == 'R')
    || (s == 's' && c == 'S') || (s == 't' && c == 'T') || (s == 'u' && c == 'U') || (s == 'v' && c == 'V') || (s == 'w' && c == 'W') || (s == 'x' && c == 'X')
    || (s == 'y' && c == 'Y') || (s == 'z' && c == 'Z')
  }

  predicate SameUpToCase(a: string, b: string) {
    |a| == |b| && forall i :: 0 <= i < |a| ==> a[i] == b[i] || IsCapitalOf(a[i], b[i]) || IsCapitalOf(b[i], a[i])
  }

  /** What a dot in a pattern does not match is not there. */
  predicate LacksTerminators(s: string) {
    forall i :: 0 <= i < |s| ==> s[i] != '\n' && s[i] != '\r' && s[i] != '\U{2028}' && s[i] != '\U{2029}'
  }

  predicate AllBlank(s: string) {
    forall i :: 0 <= i < |s| ==> IsBlank(s[i])
  }

  predicate AllSpace(s: string) {
    forall i :: 0 <= i < |s| ==> IsSpace(s[i])
  }

  lemma SpaceIsBlank(c: char)
    ensures IsSpace(c) <==> IsBlank(c)
  {
    if '\U{2000}' <= c <= '\U{200A}' { EnToHairSpace(c as int); }
  }

  lemma EnToHairSpace(n: int)
    requires 0x2000 <= n <= 0x200A
    ensures n in [0x2000, 0x2001, 0x2002, 0x2003, 0x2004, 0x2005, 0x2006, 0x2007, 0x2008, 0x2009, 0x200A]
  {
  }

  lemma RangeOfDigits(c: char)
    ensures '0' <= c <= '9' <==> IsDecimal(c)
  {
    if '0' <= c <= '9' { TenDigits(c as int); }
  }

  lemma TenDigits(n: int)
    requires 48 <= n <= 57
    ensures n in [48, 49, 50, 51, 52, 53, 54, 55, 56, 57]
  {
  }

  lemma RangesOfLetters(c: char)
    ensures 'a' <= c <= 'z' <==> IsSmallLetter(c)
    ensures 'A' <= c <= 'Z' <==> IsCapitalLetter(c)
  {
    if 'a' <= c <= 'z' { SmallLetters(c as int); }
    if 'A' <= c <= 'Z' { CapitalLetters(c as int); }
  }

  lemma SmallLetters(n: int)
    requires 97 <= n <= 122
    ensures IsSmallLetter(n as char)
  {
  }

  lemma CapitalLetters(n: int)
    requires 65 <= n <= 90
    ensures IsCapitalLetter(n as char)
  {
  }

  lemma CapitalIs(c: char, s: char)
    ensures IsCapitalOf(c, s) <==> 'A' <= c <= 'Z' && Lower(c) == s
  {
    if 'A' <= c <= 'Z' { CapitalsInOrder(c as int); }
  }

  lemma CapitalsInOrder(n: int)
    requires 65 <= n <= 90
    ensures IsCapitalOf(n as char, (n + 32) as char)
  {
  }

  /** Lower case forgets the case of letters and nothing else. */
  lemma LowerForgetsCase(a: string, b: string)
    ensures ToLowerCase(a) == ToLowerCase(b) <==> SameUpToCase(a, b)
  {
    assert |ToLowerCase(a)| == |a| && |ToLowerCase(b)| == |b|;
    if |a| == |b| {
      forall i | 0 <= i < |a|
        ensures ToLowerCase(a)[i] == ToLowerCase(b)[i] <==> a[i] == b[i] || IsCapitalOf(a[i], b[i]) || IsCapitalOf(b[i], a[i])
      {
        SameLower(a[i], b[i]);
      }
    }
  }

  lemma SameLower(x: char, y: char)
    ensures Lower(x) == Lower(y) <==> x == y || IsCapitalOf(x, y) || IsCapitalOf(y, x)
  {
    CapitalIs(x, y);
    CapitalIs(y, x);
  }

  /** The result is in small letters already. */
  lemma LowerIsSmall(a: string)
    ensures SameUpToCase(ToLowerCase(a), a) && forall i :: 0 <= i < |a| ==> !IsCapitalLetter(ToLowerCase(a)[i])
  {
    forall i | 0 <= i < |a| ensures Lower(Lower(a[i])) == Lower(a[i]) && !IsCapitalLetter(Lower(a[i])) {
      RangesOfLetters(Lower(a[i]));
    }
    assert ToLowerCase(ToLowerCase(a)) == ToLowerCase(a);
    LowerForgetsCase(ToLowerCase(a), a);
  }

  lemma BlanksAreSpaces(s: string)
    ensures AllBlank(s) <==> AllSpace(s)
  {
    forall i | 0 <= i < |s| ensures IsBlank(s[i]) <==> IsSpace(s[i]) {
      SpaceIsBlank(s[i]);
    }
  }

  /** Trimming takes the blanks at both ends and nothing else. */
  lemma TrimTakesBlanks(a: string, t: string, b: string)
    requires AllBlank(a) && AllBlank(b) && (t != "" ==> !IsBlank(t[0]) && !IsBlank(t[|t| - 1]))
    ensures Trim(a + (t + b)) == t
  {
    BlanksAreSpaces(a);
    BlanksAreSpaces(b);
    TrimStartTakes(a, t + b);
    if t == "" {
      TrimStartTakes(b, "");
      assert t + b == b && b + "" == b;
    } else {
      SpaceIsBlank(t[0]);
      SpaceIsBlank(t[|t| - 1]);
      assert (t + b)[0] == t[0];
      TrimEndTakes(t, b);
    }
  }

  lemma {:induction false} TrimStartTakes(a: string, rest: string)
    requires AllSpace(a)
    ensures TrimStart(a + rest) == TrimStart(rest)
  {
    if a == "" {
      assert a + rest == rest;
    } else {
      assert (a + rest)[1..] == a[1..] + rest;
      TrimStartTakes(a[1..], rest);
    }
  }

  lemma {:induction false} TrimEndTakes(t: string, b: string)
    requires t != "" && !IsSpace(t[|t| - 1]) && AllSpace(b)
    ensures TrimEnd(t + b) == t
  {
    if b == "" {
      assert t + b == t;
    } else {
      assert (t + b)[|t + b| - 1] == b[|b| - 1] && (t + b)[..|t + b| - 1] == t + b[..|b| - 1];
      TrimEndTakes(t, b[..|b| - 1]);
    }
  }

  /** Every text is its trimmed text between blanks. */
  lemma TrimSplits(s: string) returns (a: string, b: string)
    ensures AllBlank(a) && AllBlank(b) && s == a + (Trim(s) + b)
    ensures Trim(s) != "" ==> !IsBlank(Trim(s)[0]) && !IsBlank(Trim(s)[|Trim(s)| - 1])
  {
    a := TrimStartSplits(s);
    b := TrimEndSplits(TrimStart(s));
    BlanksAreSpaces(a);
    BlanksAreSpaces(b);
    var t := Trim(s);
    if t != "" {
      assert t[0] == TrimStart(s)[0];
      SpaceIsBlank(t[0]);
      SpaceIsBlank(t[|t| - 1]);
    }
  }

  lemma {:induction false} TrimStartSplits(s: string) returns (a: string)
    ensures AllSpace(a) && s == a + TrimStart(s) && (TrimStart(s) != "" ==> !IsSpace(TrimStart(s)[0]))
  {
    a := "";
    if s != "" && IsSpace(s[0]) {
      a := TrimStartSplits(s[1..]);
      a := [s[0]] + a;
    }
  }

  lemma {:induction false} TrimEndSplits(s: string) returns (b: string)
    ensures AllSpace(b) && s == TrimEnd(s) + b && (TrimEnd(s) != "" ==> !IsSpace(TrimEnd(s)[|TrimEnd(s)| - 1]))
  {
    b := "";
    if s != "" && IsSpace(s[|s| - 1]) {
      var front, last := s[..|s| - 1], s[|s| - 1];
      b := TrimEndSplits(front);
      OneMoreSpace(b, last);
      assert s == front + [last] && TrimEnd(s) == TrimEnd(front);
      b := b + [last];
    }
  }

  lemma OneMoreSpace(b: string, c: char)
    requires AllSpace(b) && IsSpace(c)
    ensures AllSpace(b + [c])
  {
  }
}
