/** String operations the modelled code borrows from its host language. */
module Text {

  datatype Option<+T> = None | Some(value: T)

  datatype Result<+T, +E> = Ok(value: T) | Err(error: E)

  /** The characters that the host language's `\s` matches and `trim` strips. */
  predicate IsSpace(c: char) {
    c in " \t\n\r" || c in ['\U{0B}', '\U{0C}', '\U{A0}', '\U{1680}', '\U{2028}', '\U{2029}', '\U{202F}', '\U{205F}', '\U{3000}', '\U{FEFF}']
    || '\U{2000}' <= c <= '\U{200A}'
  }

  predicate IsBreak(c: char) {
    c == '\n' || c == '\r'
  }

  predicate Breakless(s: string) {
    forall c :: c in s ==> !IsBreak(c)
  }

  function TrimStart(s: string): string {
    if s != "" && IsSpace(s[0]) then TrimStart(s[1..]) else s
  }

  function TrimEnd(s: string): string {
    if s != "" && IsSpace(s[|s| - 1]) then TrimEnd(s[..|s| - 1]) else s
  }

  function Trim(s: string): string {
    TrimEnd(TrimStart(s))
  }

  predicate Trimmed(s: string) {
    s == "" || (!IsSpace(s[0]) && !IsSpace(s[|s| - 1]))
  }

  /** Whether `w` occurs somewhere in `s`. */
  ghost predicate Contains(s: string, w: string) {
    exists i :: 0 <= i <= |s| && w <= s[i..]
  }

  function Repeat(c: char, n: nat): (s: string)
    ensures |s| == n && forall i :: 0 <= i < n ==> s[i] == c
  {
    seq(n, _ => c)
  }

  /** The first position of `c`, or the length. */
  function Find(s: string, c: char): (n: nat)
    ensures n <= |s|
  {
    if s == "" || s[0] == c then 0 else 1 + Find(s[1..], c)
  }

  function Lower(c: char): char {
    if 'A' <= c <= 'Z' then c + 32 as char else c
  }

  /** Lower case of the ASCII letters. */
  function ToLowerCase(s: string): string {
    seq(|s|, i requires 0 <= i < |s| => Lower(s[i]))
  }

  // ---------------------------------------------------------------- replacement

  /** Leftmost, non-overlapping replacement of a literal pattern. */
  function ReplaceAll(s: string, pat: string, rep: string): string
    requires pat != ""
  {
    if s == "" then ""
    else if pat <= s then rep + ReplaceAll(s[|pat|..], pat, rep)
    else [s[0]] + ReplaceAll(s[1..], pat, rep)
  }

  /** A stretch in which no match begins is copied unchanged. */
  lemma {:induction false} ReplaceSkips(u: string, v: string, pat: string, rep: string)
    requires pat != ""
    requires forall i :: 0 <= i < |u| ==> !(pat <= u[i..] + v)
    ensures ReplaceAll(u + v, pat, rep) == u + ReplaceAll(v, pat, rep)
  {
    if u == "" {
      assert u + v == v;
    } else {
      assert u[0..] + v == u + v;
      assert (u + v)[1..] == u[1..] + v;
      forall i | 0 <= i < |u[1..]| ensures !(pat <= u[1..][i..] + v) {
        assert u[1..][i..] == u[i + 1..];
      }
      ReplaceSkips(u[1..], v, pat, rep);
    }
  }

  lemma ReplaceHit(v: string, pat: string, rep: string)
    requires pat != ""
    ensures ReplaceAll(pat + v, pat, rep) == rep + ReplaceAll(v, pat, rep)
  {
    assert (pat + v)[|pat|..] == v;
  }

  // ---------------------------------------------------------------- lines

  /** Splits at "\r\n", "\r" and "\n". */
  function SplitLines(s: string): (lines: seq<string>)
    ensures |lines| >= 1
    ensures forall l :: l in lines ==> Breakless(l)
  {
    if s == "" then [""]
    else if "\r\n" <= s then [""] + SplitLines(s[2..])
    else if IsBreak(s[0]) then [""] + SplitLines(s[1..])
    else
      var rest := SplitLines(s[1..]);
      assert rest[0] in rest;
      assert Breakless([s[0]] + rest[0]);
      [[s[0]] + rest[0]] + rest[1..]
  }

  function Join(parts: seq<string>, sep: string): string {
    if |parts| == 0 then ""
    else if |parts| == 1 then parts[0]
    else parts[0] + sep + Join(parts[1..], sep)
  }

  /** The text with every line break written "\n". */
  function NormalizeBreaks(s: string): string {
    if s == "" then ""
    else if "\r\n" <= s then "\n" + NormalizeBreaks(s[2..])
    else if IsBreak(s[0]) then "\n" + NormalizeBreaks(s[1..])
    else [s[0]] + NormalizeBreaks(s[1..])
  }

  lemma {:induction false} JoinSplitLines(s: string)
    ensures Join(SplitLines(s), "\n") == NormalizeBreaks(s)
  {
    if s == "" {
    } else if "\r\n" <= s {
      JoinSplitLines(s[2..]);
    } else if IsBreak(s[0]) {
      JoinSplitLines(s[1..]);
    } else {
      JoinSplitLines(s[1..]);
      var rest := SplitLines(s[1..]);
      var lines := SplitLines(s);
      assert lines[1..] == rest[1..];
      if |rest| > 1 {
        assert Join(lines, "\n") == ([s[0]] + rest[0]) + "\n" + Join(rest[1..], "\n");
        assert Join(rest, "\n") == rest[0] + "\n" + Join(rest[1..], "\n");
      }
    }
  }

  lemma {:induction false} SplitBreakless(l: string)
    requires Breakless(l)
    ensures SplitLines(l) == [l]
  {
    if l != "" {
      assert l[0] in l;
      assert forall c :: c in l[1..] ==> c in l;
      SplitBreakless(l[1..]);
      assert [l[0]] + l[1..] == l;
    }
  }

  lemma {:induction false} SplitAtNewline(l: string, rest: string)
    requires Breakless(l)
    ensures SplitLines(l + "\n" + rest) == [l] + SplitLines(rest)
  {
    var s := l + "\n" + rest;
    if l == "" {
      assert s[0] == '\n' && s[1..] == rest;
      assert IsBreak(s[0]) && !("\r\n" <= s);
      assert l == "";
    } else {
      assert l[0] in l;
      assert forall c :: c in l[1..] ==> c in l;
      SplitAtNewline(l[1..], rest);
      assert s[1..] == l[1..] + "\n" + rest;
      assert [l[0]] + l[1..] == l;
      var tail := SplitLines(s[1..]);
      assert tail[0] == l[1..] && tail[1..] == SplitLines(rest);
    }
  }

  /** Splitting undoes joining, for any non-empty list of single lines. */
  lemma {:induction false} SplitJoinLines(lines: seq<string>)
    requires lines != []
    requires forall l :: l in lines ==> Breakless(l)
    ensures SplitLines(Join(lines, "\n")) == lines
  {
    assert lines[0] in lines;
    if |lines| == 1 {
      SplitBreakless(lines[0]);
    } else {
      SplitJoinLines(lines[1..]);
      SplitAtNewline(lines[0], Join(lines[1..], "\n"));
      assert [lines[0]] + lines[1..] == lines;
    }
  }

  lemma {:induction false} JoinAppend(a: seq<string>, b: seq<string>, sep: string)
    requires a != [] && b != []
    ensures Join(a + b, sep) == Join(a, sep) + sep + Join(b, sep)
  {
    assert (a + b)[1..] == a[1..] + b;
    if |a| > 1 {
      JoinAppend(a[1..], b, sep);
      assert Join(a + b, sep) == a[0] + sep + (Join(a[1..], sep) + sep + Join(b, sep));
    } else {
      assert a[1..] + b == b;
    }
  }

  // ---------------------------------------------------------------- sequences of sequences

  function Concat<T>(parts: seq<seq<T>>): seq<T> {
    if parts == [] then [] else parts[0] + Concat(parts[1..])
  }

  lemma {:induction false} ConcatAppend<T>(a: seq<seq<T>>, b: seq<seq<T>>)
    ensures Concat(a + b) == Concat(a) + Concat(b)
  {
    if a == [] {
      assert a + b == b;
    } else {
      ConcatAppend(a[1..], b);
      assert (a + b)[1..] == a[1..] + b;
      Associates(a[0], Concat(a[1..]), Concat(b));
    }
  }

  lemma DropDrop<T>(s: seq<T>, m: nat, n: nat)
    requires m + n <= |s|
    ensures s[m..][n..] == s[m + n..]
  {
  }

  lemma Associates<T>(a: seq<T>, b: seq<T>, c: seq<T>)
    ensures a + (b + c) == (a + b) + c
  {
  }

  lemma ConcatCons<T>(part: seq<T>, parts: seq<seq<T>>)
    ensures Concat([part] + parts) == part + Concat(parts)
  {
    assert ([part] + parts)[1..] == parts;
  }

  lemma ConcatOne<T>(part: seq<T>)
    ensures Concat([part]) == part
  {
    assert [part][1..] == [];
    assert Concat([part]) == part + Concat<T>([]);
  }
}
