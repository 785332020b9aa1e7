/**
 * The search for missing translations
 * (scripts/find-missing-translations.js).
 *
 * A translation file is a tree of named entries. Its leaves are listed by
 * dotted names, and a name is looked up in another file part by part.
 */
module Translations {
  import opened Text

  /** A JSON value that is not an object: null, or anything else. */
  datatype Primitive = Null | Plain(text: string)

  datatype Tree = Leaf(value: Primitive) | Node(entries: seq<Entry>)

  datatype Entry = Entry(key: string, child: Tree)

  /** Members an object has besides its own entries, such as a text's length. */
  type Inherited = (Tree, string) -> Option<Tree>

  type Path = seq<string>

  // ---------------------------------------------------------------- specification

  function Child(entries: seq<Entry>, key: string): (child: Option<Tree>)
    ensures child.Some? ==> exists i :: 0 <= i < |entries| && entries[i] == Entry(key, child.value)
    ensures child.None? ==> forall i :: 0 <= i < |entries| ==> entries[i].key != key
  {
    if entries == [] then None
    else if entries[0].key == key then Some(entries[0].child)
    else Child(entries[1..], key)
  }

  /** The value the file itself has at a path. */
  function At(tree: Tree, path: Path): Option<Tree> {
    if path == [] then Some(tree)
    else if tree.Leaf? then None
    else
      match Child(tree.entries, path[0])
      case None => None
      case Some(child) => At(child, path[1..])
  }

  function Under(key: string, paths: seq<Path>): (under: seq<Path>)
    ensures |under| == |paths|
    ensures forall i :: 0 <= i < |paths| ==> under[i] == [key] + paths[i]
  {
    seq(|paths|, i requires 0 <= i < |paths| => [key] + paths[i])
  }

  /** The paths of the leaves, in the file's order. */
  function LeafPaths(entries: seq<Entry>): seq<Path> {
    if entries == [] then [] else EntryPaths(entries[0]) + LeafPaths(entries[1..])
  }

  function EntryPaths(entry: Entry): seq<Path> {
    match entry.child
    case Leaf(_) => [[entry.key]]
    case Node(entries) => Under(entry.key, LeafPaths(entries))
  }

  /** The dotted name of a path below `parent`. */
  function Name(parent: string, path: Path): string
    decreases |path|
  {
    if path == [] then parent
    else Name(if parent != "" then parent + "." + path[0] else path[0], path[1..])
  }

  function Names(parent: string, paths: seq<Path>): (names: seq<string>)
    ensures |names| == |paths|
    ensures forall i :: 0 <= i < |paths| ==> names[i] == Name(parent, paths[i])
  {
    seq(|paths|, i requires 0 <= i < |paths| => Name(parent, paths[i]))
  }

  function SplitDots(s: string): (parts: seq<string>)
    ensures |parts| >= 1
  {
    if s == "" then [""]
    else if s[0] == '.' then [""] + SplitDots(s[1..])
    else
      var rest := SplitDots(s[1..]);
      [[s[0]] + rest[0]] + rest[1..]
  }

  /** A member: the file's own entry first, and an inherited one otherwise. */
  function Member(tree: Tree, part: string, inherited: Inherited): Option<Tree> {
    if tree.Node? && Child(tree.entries, part).Some? then Child(tree.entries, part) else inherited(tree, part)
  }

  function Walk(tree: Tree, parts: Path, inherited: Inherited): Option<Tree>
    decreases |parts|
  {
    if parts == [] then Some(tree)
    else if tree == Leaf(Null) then None
    else
      match Member(tree, parts[0], inherited)
      case None => None
      case Some(next) => Walk(next, parts[1..], inherited)
  }

  // ---------------------------------------------------------------- the script

  method FindKeys(entries: seq<Entry>, parentKey: string) returns (keys: seq<string>)
    ensures keys == Names(parentKey, LeafPaths(entries))
    decreases entries
  {
    keys := [];
    var i := 0;
    while i < |entries|
      invariant 0 <= i <= |entries|
      invariant keys + Names(parentKey, LeafPaths(entries[i..])) == Names(parentKey, LeafPaths(entries))
    {
      var entry := entries[i];
      var currentKey := if parentKey != "" then parentKey + "." + entry.key else entry.key;
      DropDrop(entries, i, 1);
      FirstEntryNames(entries[i..], keys, parentKey, currentKey);
      match entry.child {
        case Node(inner) =>
          var below := FindKeys(inner, currentKey);
          keys := keys + below;
        case Leaf(_) =>
          keys := keys + [currentKey];
      }
      i := i + 1;
    }
  }

  method GetValueAtPath(obj: Tree, path: string, inherited: Inherited) returns (value: Option<Tree>)
    ensures value == Walk(obj, SplitDots(path), inherited)
  {
    var parts := SplitDots(path);
    var current := obj;
    var i := 0;
    while i < |parts|
      invariant 0 <= i <= |parts|
      invariant Walk(current, parts[i..], inherited) == Walk(obj, parts, inherited)
    {
      DropDrop(parts, i, 1);
      if current == Leaf(Null) {
        return None;
      }
      var next := Member(current, parts[i], inherited);
      if next.None? {
        return None;
      }
      current := next.value;
      i := i + 1;
    }
    return Some(current);
  }

  datatype MissingKey = MissingKey(key: string, englishValue: Option<Tree>)

  /** The English entries whose dotted name finds nothing in the locale. */
  function Missing(keys: seq<string>, english: Tree, locale: Tree, inherited: Inherited): seq<MissingKey> {
    if keys == [] then []
    else if Walk(locale, SplitDots(keys[0]), inherited).None? then
      [MissingKey(keys[0], Walk(english, SplitDots(keys[0]), inherited))] + Missing(keys[1..], english, locale, inherited)
    else Missing(keys[1..], english, locale, inherited)
  }

  method MissingKeys(english: seq<Entry>, locale: Tree, inherited: Inherited) returns (missing: seq<MissingKey>)
    ensures missing == Missing(Names("", LeafPaths(english)), Node(english), locale, inherited)
  {
    var keys := FindKeys(english, "");
    missing := [];
    var i := 0;
    while i < |keys|
      invariant 0 <= i <= |keys|
      invariant missing + Missing(keys[i..], Node(english), locale, inherited)
             == Missing(keys, Node(english), locale, inherited)
    {
      DropDrop(keys, i, 1);
      MissingFirst(keys[i..], missing, Node(english), locale, inherited);
      var englishValue := GetValueAtPath(Node(english), keys[i], inherited);
      var localeValue := GetValueAtPath(locale, keys[i], inherited);
      if localeValue.None? {
        missing := missing + [MissingKey(keys[i], englishValue)];
      }
      i := i + 1;
    }
  }

  lemma MissingFirst(keys: seq<string>, found: seq<MissingKey>, english: Tree, locale: Tree, inherited: Inherited)
    requires keys != []
    ensures found + Missing(keys, english, locale, inherited)
         == (if Walk(locale, SplitDots(keys[0]), inherited).None?
             then found + [MissingKey(keys[0], Walk(english, SplitDots(keys[0]), inherited))] else found)
            + Missing(keys[1..], english, locale, inherited)
  {
    Associates(found, [MissingKey(keys[0], Walk(english, SplitDots(keys[0]), inherited))], Missing(keys[1..], english, locale, inherited));
  }

  lemma FirstEntryNames(entries: seq<Entry>, found: seq<string>, parent: string, current: string)
    requires entries != [] && current == if parent != "" then parent + "." + entries[0].key else entries[0].key
    ensures found + Names(parent, LeafPaths(entries))
         == (found + match entries[0].child
                     case Leaf(_) => [current]
                     case Node(inner) => Names(current, LeafPaths(inner)))
            + Names(parent, LeafPaths(entries[1..]))
  {
    NamesAppend(parent, EntryPaths(entries[0]), LeafPaths(entries[1..]));
    NamesUnder(parent, entries[0], current);
    Associates(found, Names(parent, EntryPaths(entries[0])), Names(parent, LeafPaths(entries[1..])));
  }

  lemma NamesAppend(parent: string, a: seq<Path>, b: seq<Path>)
    ensures Names(parent, a + b) == Names(parent, a) + Names(parent, b)
  {
  }

  lemma NamesUnder(parent: string, entry: Entry, current: string)
    requires current == if parent != "" then parent + "." + entry.key else entry.key
    ensures match entry.child
            case Leaf(_) => Names(parent, EntryPaths(entry)) == [current]
            case Node(inner) => Names(parent, EntryPaths(entry)) == Names(current, LeafPaths(inner))
  {
    match entry.child
    case Leaf(_) =>
      assert Name(parent, [entry.key]) == Name(current, []);
    case Node(inner) =>
      var paths := LeafPaths(inner);
      forall i | 0 <= i < |paths| ensures Name(parent, [entry.key] + paths[i]) == Name(current, paths[i]) {
        assert ([entry.key] + paths[i])[1..] == paths[i];
      }
  }

  // ---------------------------------------------------------------- names and paths

  predicate DotFree(key: string) {
    '.' !in key
  }

  /**
   * The paths whose name can be read back: no key has a dot, and the first key
   * is not empty unless it is the only one (an empty first key leaves no trace
   * in the name).
   */
  predicate Readable(path: Path) {
    path != [] && (forall k :: 0 <= k < |path| ==> DotFree(path[k])) && (|path| == 1 || path[0] != "")
  }

  lemma {:induction false} NameJoins(parent: string, path: Path)
    requires parent != ""
    ensures Name(parent, path) == Join([parent] + path, ".")
    decreases |path|
  {
    if path != [] {
      var next := parent + "." + path[0];
      NameJoins(next, path[1..]);
      assert ([parent] + path)[1..] == path;
      assert ([next] + path[1..])[1..] == path[1..];
      if |path| > 1 {
        assert path == [path[0]] + path[1..];
        Associates(parent + ".", path[0], "." + Join(path[1..], "."));
      }
    }
  }

  lemma {:induction false} SplitAtDot(part: string, rest: string)
    requires DotFree(part)
    ensures SplitDots(part) == [part]
    ensures SplitDots(part + "." + rest) == [part] + SplitDots(rest)
  {
    var s := part + "." + rest;
    if part == "" {
      assert s[1..] == rest;
    } else {
      SplitAtDot(part[1..], rest);
      assert s[1..] == part[1..] + "." + rest;
      assert [part[0]] + part[1..] == part;
      assert SplitDots(s[1..])[1..] == SplitDots(rest);
    }
  }

  lemma {:induction false} SplitUndoesJoin(path: Path)
    requires path != [] && forall k :: 0 <= k < |path| ==> DotFree(path[k])
    ensures SplitDots(Join(path, ".")) == path
  {
    if |path| == 1 {
      SplitAtDot(path[0], "");
    } else {
      SplitUndoesJoin(path[1..]);
      SplitAtDot(path[0], Join(path[1..], "."));
      assert [path[0]] + path[1..] == path;
    }
  }

  lemma {:induction false} PartsAreDotFree(s: string)
    ensures forall k :: 0 <= k < |SplitDots(s)| ==> DotFree(SplitDots(s)[k])
  {
    if s != "" {
      PartsAreDotFree(s[1..]);
    }
  }

  /** A name is split back into the path it was made from exactly for readable paths. */
  lemma SplitUndoesName(path: Path)
    requires path != []
    ensures SplitDots(Name("", path)) == path <==> Readable(path)
  {
    PartsAreDotFree(Name("", path));
    if forall k :: 0 <= k < |path| ==> DotFree(path[k]) {
      Parts(path);
    }
  }

  /** Empty keys in front are lost, all but the last. */
  lemma {:induction false} Parts(path: Path)
    requires path != [] && forall k :: 0 <= k < |path| ==> DotFree(path[k])
    ensures |SplitDots(Name("", path))| <= |path|
    ensures |path| > 1 && path[0] == "" ==> |SplitDots(Name("", path))| < |path|
    ensures Readable(path) ==> SplitDots(Name("", path)) == path
  {
    assert Name("", path) == Name(path[0], path[1..]);
    if path[0] != "" {
      NameJoins(path[0], path[1..]);
      assert [path[0]] + path[1..] == path;
      SplitUndoesJoin(path);
    } else if |path| > 1 {
      Parts(path[1..]);
    }
  }

  /** Different readable paths have different names. */
  lemma NamesAreDistinct(p: Path, q: Path)
    requires Readable(p) && Readable(q) && Name("", p) == Name("", q)
    ensures p == q
  {
    SplitUndoesName(p);
    SplitUndoesName(q);
  }

  // ---------------------------------------------------------------- leaves

  /** No object has two entries of one name. */
  predicate Distinct(entries: seq<Entry>) {
    (forall i, j :: 0 <= i < j < |entries| ==> entries[i].key != entries[j].key)
    && forall i :: 0 <= i < |entries| ==> entries[i].child.Node? ==> Distinct(entries[i].child.entries)
  }

  lemma DistinctRest(entries: seq<Entry>)
    requires entries != [] && Distinct(entries)
    ensures Distinct(entries[1..])
    ensures entries[0].child.Node? ==> Distinct(entries[0].child.entries)
    ensures Child(entries[1..], entries[0].key).None?
  {
    var rest := entries[1..];
    assert forall i :: 0 <= i < |rest| ==> rest[i] == entries[i + 1];
  }

  lemma {:induction false} PathsAreNonEmpty(entries: seq<Entry>)
    ensures forall p :: p in LeafPaths(entries) ==> p != []
  {
    if entries != [] {
      PathsAreNonEmpty(entries[1..]);
    }
  }

  /** The listed paths are exactly those where the file has a leaf. */
  lemma {:induction false} LeafPathsAreLeaves(entries: seq<Entry>, path: Path)
    requires Distinct(entries)
    ensures path in LeafPaths(entries) <==> path != [] && At(Node(entries), path).Some? && At(Node(entries), path).value.Leaf?
    decreases entries
  {
    PathsAreNonEmpty(entries);
    if entries != [] && path != [] {
      var entry := entries[0];
      DistinctRest(entries);
      LeafPathsAreLeaves(entries[1..], path);
      if entry.child.Node? {
        LeafPathsAreLeaves(entry.child.entries, path[1..]);
        InUnder(entry.key, LeafPaths(entry.child.entries), path);
      }
      EntryLeaves(entry, path);
      if path[0] == entry.key {
        assert Child(entries, path[0]) == Some(entry.child);
        assert At(Node(entries[1..]), path).None?;
      } else {
        assert Child(entries, path[0]) == Child(entries[1..], path[0]);
      }
    }
  }

  lemma InUnder(key: string, paths: seq<Path>, path: Path)
    requires path != []
    ensures path in Under(key, paths) <==> path[0] == key && path[1..] in paths
  {
    if path[0] == key && path[1..] in paths {
      var i :| 0 <= i < |paths| && paths[i] == path[1..];
      assert Under(key, paths)[i] == [key] + path[1..] == path;
    }
    if path in Under(key, paths) {
      var i :| 0 <= i < |paths| && Under(key, paths)[i] == path;
      assert path == [key] + paths[i];
      assert path[1..] == paths[i];
    }
  }

  lemma EntryLeaves(entry: Entry, path: Path)
    requires path != []
    requires entry.child.Node? ==>
               (path[1..] in LeafPaths(entry.child.entries)
                <==> path[1..] != [] && At(entry.child, path[1..]).Some? && At(entry.child, path[1..]).value.Leaf?)
    ensures path in EntryPaths(entry)
       <==> path[0] == entry.key && At(entry.child, path[1..]).Some? && At(entry.child, path[1..]).value.Leaf?
  {
    match entry.child
    case Leaf(_) =>
      assert path == [entry.key] <==> path[0] == entry.key && path[1..] == [];
    case Node(entries) =>
      InUnder(entry.key, LeafPaths(entries), path);
  }

  predicate NoRepeats<T(==)>(s: seq<T>) {
    forall i, j :: 0 <= i < j < |s| ==> s[i] != s[j]
  }

  /** Every leaf path is listed once. */
  lemma {:induction false} LeafPathsListedOnce(entries: seq<Entry>)
    requires Distinct(entries)
    ensures NoRepeats(LeafPaths(entries))
    decreases entries
  {
    if entries != [] {
      var entry := entries[0];
      DistinctRest(entries);
      LeafPathsListedOnce(entries[1..]);
      if entry.child.Node? {
        LeafPathsListedOnce(entry.child.entries);
      }
      var a, b := EntryPaths(entry), LeafPaths(entries[1..]);
      PathsAreNonEmpty(entries[1..]);
      forall i, j | 0 <= i < |a| && 0 <= j < |b| ensures a[i] != b[j] {
        LeafPathsAreLeaves(entries[1..], b[j]);
        assert b[j] in LeafPaths(entries[1..]);
        assert a[i][0] == entry.key;
      }
      forall i, j | 0 <= i < j < |a| ensures a[i] != a[j] {
        UnderKeepsApart(entry, i, j);
      }
    }
  }

  lemma UnderKeepsApart(entry: Entry, i: nat, j: nat)
    requires i < j < |EntryPaths(entry)|
    requires entry.child.Node? ==> NoRepeats(LeafPaths(entry.child.entries))
    ensures EntryPaths(entry)[i] != EntryPaths(entry)[j]
  {
    var paths := LeafPaths(entry.child.entries);
    assert EntryPaths(entry)[i][1..] == paths[i] && EntryPaths(entry)[j][1..] == paths[j];
  }

  /** All leaf paths of the file can be read back from their names. */
  ghost predicate Nameable(entries: seq<Entry>) {
    forall p :: p in LeafPaths(entries) ==> Readable(p)
  }

  /** Files with dot-free, non-empty names can always be read back. */
  predicate PlainKeys(entries: seq<Entry>) {
    forall i :: 0 <= i < |entries| ==>
      DotFree(entries[i].key) && entries[i].key != "" && (entries[i].child.Node? ==> PlainKeys(entries[i].child.entries))
  }

  lemma {:induction false} PlainKeysAreNameable(entries: seq<Entry>)
    requires PlainKeys(entries)
    ensures forall p :: p in LeafPaths(entries) ==> Readable(p) && p[0] != ""
    decreases entries
  {
    if entries != [] {
      var entry := entries[0];
      assert forall i :: 0 <= i < |entries[1..]| ==> entries[1..][i] == entries[i + 1];
      PlainKeysAreNameable(entries[1..]);
      if entry.child.Node? {
        PlainKeysAreNameable(entry.child.entries);
        forall p | p in EntryPaths(entry) ensures Readable(p) && p[0] != "" {
          var paths := LeafPaths(entry.child.entries);
          var i :| 0 <= i < |paths| && p == [entry.key] + paths[i];
          assert paths[i] in paths;
        }
      }
    }
  }

  // ---------------------------------------------------------------- lookups

  /** A lookup finds what the file itself has, whatever else its values inherit. */
  lemma {:induction false} WalkFindsOwn(tree: Tree, path: Path, inherited: Inherited)
    requires At(tree, path).Some?
    ensures Walk(tree, path, inherited) == At(tree, path)
  {
    if path != [] {
      WalkFindsOwn(Child(tree.entries, path[0]).value, path[1..], inherited);
    }
  }

  /** Whether the lookup leaves the file's own entries and still finds something. */
  predicate Shadowed(tree: Tree, path: Path, inherited: Inherited) {
    path != [] && tree != Leaf(Null)
    && if tree.Node? && Child(tree.entries, path[0]).Some? then
         Shadowed(Child(tree.entries, path[0]).value, path[1..], inherited)
       else
         inherited(tree, path[0]).Some? && Walk(inherited(tree, path[0]).value, path[1..], inherited).Some?
  }

  /** A lookup finds nothing exactly when the file has nothing there and no inherited member steps in. */
  lemma {:induction false} WalkMissesExactlyWhen(tree: Tree, path: Path, inherited: Inherited)
    ensures Walk(tree, path, inherited).None? <==> At(tree, path).None? && !Shadowed(tree, path, inherited)
  {
    if path != [] && tree.Node? && Child(tree.entries, path[0]).Some? {
      WalkMissesExactlyWhen(Child(tree.entries, path[0]).value, path[1..], inherited);
    }
  }

  /** Looking a listed name up in its own file gives the leaf it was listed for. */
  lemma LookupUndoesListing(entries: seq<Entry>, path: Path, inherited: Inherited)
    requires Distinct(entries) && path in LeafPaths(entries) && Readable(path)
    ensures At(Node(entries), path).Some? && At(Node(entries), path).value.Leaf?
    ensures Walk(Node(entries), SplitDots(Name("", path)), inherited) == At(Node(entries), path)
  {
    LeafPathsAreLeaves(entries, path);
    SplitUndoesName(path);
    WalkFindsOwn(Node(entries), path, inherited);
  }

  /** No name is listed twice. */
  lemma NamesListedOnce(entries: seq<Entry>)
    requires Distinct(entries) && Nameable(entries)
    ensures NoRepeats(Names("", LeafPaths(entries)))
  {
    LeafPathsListedOnce(entries);
    var paths := LeafPaths(entries);
    forall i, j | 0 <= i < j < |paths| ensures Name("", paths[i]) != Name("", paths[j]) {
      assert paths[i] in paths && paths[j] in paths;
      if Name("", paths[i]) == Name("", paths[j]) {
        NamesAreDistinct(paths[i], paths[j]);
      }
    }
  }

  // ---------------------------------------------------------------- the report

  /** The English leaves the locale has nothing for, in the English file's order. */
  function Untranslated(paths: seq<Path>, english: Tree, locale: Tree, inherited: Inherited): seq<MissingKey> {
    if paths == [] then []
    else if At(locale, paths[0]).None? && !Shadowed(locale, paths[0], inherited) then
      [MissingKey(Name("", paths[0]), At(english, paths[0]))] + Untranslated(paths[1..], english, locale, inherited)
    else Untranslated(paths[1..], english, locale, inherited)
  }

  lemma ReportIsExact(english: seq<Entry>, locale: Tree, inherited: Inherited)
    requires Distinct(english) && Nameable(english)
    ensures Missing(Names("", LeafPaths(english)), Node(english), locale, inherited)
         == Untranslated(LeafPaths(english), Node(english), locale, inherited)
  {
    forall p | p in LeafPaths(english) ensures Readable(p) && At(Node(english), p).Some? {
      LeafPathsAreLeaves(english, p);
    }
    ReportFollowsPaths(LeafPaths(english), Node(english), locale, inherited);
  }

  lemma {:induction false} ReportFollowsPaths(paths: seq<Path>, english: Tree, locale: Tree, inherited: Inherited)
    requires forall p :: p in paths ==> Readable(p) && At(english, p).Some?
    ensures Missing(Names("", paths), english, locale, inherited) == Untranslated(paths, english, locale, inherited)
  {
    if paths != [] {
      var p := paths[0];
      assert p in paths;
      SplitUndoesName(p);
      WalkFindsOwn(english, p, inherited);
      WalkMissesExactlyWhen(locale, p, inherited);
      assert Names("", paths)[1..] == Names("", paths[1..]);
      ReportFollowsPaths(paths[1..], english, locale, inherited);
    }
  }

  lemma {:induction false} UntranslatedExactly(paths: seq<Path>, english: Tree, locale: Tree, inherited: Inherited, m: MissingKey)
    ensures m in Untranslated(paths, english, locale, inherited)
       <==> exists i :: 0 <= i < |paths| && m == MissingKey(Name("", paths[i]), At(english, paths[i]))
                        && At(locale, paths[i]).None? && !Shadowed(locale, paths[i], inherited)
  {
    if paths != [] {
      var rest := paths[1..];
      UntranslatedExactly(rest, english, locale, inherited, m);
      assert forall i :: 0 <= i < |rest| ==> rest[i] == paths[i + 1];
      if i :| 0 < i < |paths| && m == MissingKey(Name("", paths[i]), At(english, paths[i]))
              && At(locale, paths[i]).None? && !Shadowed(locale, paths[i], inherited) {
        assert rest[i - 1] == paths[i];
      }
    }
  }

  /** An inherited member hides a missing key: a text has a length, so `title.length` is never reported. */
  lemma InheritedMemberHidesMissingKey(inherited: Inherited, english: Tree, value: Tree)
    requires inherited(Leaf(Plain("Titel")), "length") == Some(value)
    ensures var locale := Node([Entry("title", Leaf(Plain("Titel")))]);
            At(locale, ["title", "length"]).None?
            && Untranslated([["title", "length"]], english, locale, inherited) == []
  {
    var locale := Node([Entry("title", Leaf(Plain("Titel")))]);
    var path := ["title", "length"];
    assert path[1..] == ["length"] && path[1..][1..] == [];
    assert Shadowed(Leaf(Plain("Titel")), path[1..], inherited);
  }

  /** A key with a dot is reported missing even from the English file itself. */
  lemma DottedKeyIsReportedAnyway(leaf: Primitive, inherited: Inherited)
    requires forall tree :: inherited(tree, "a") == None
    ensures var file := [Entry("a.b", Leaf(leaf))];
            Missing(Names("", LeafPaths(file)), Node(file), Node(file), inherited) == [MissingKey("a.b", None)]
  {
    var file := [Entry("a.b", Leaf(leaf))];
    assert LeafPaths(file) == [["a.b"]] + LeafPaths(file[1..]) == [["a.b"]];
    assert Name("", ["a.b"]) == Name("a.b", []);
    assert Names("", LeafPaths(file)) == ["a.b"];
    SplitAtDot("a", "b");
    assert "a.b" == "a" + "." + "b";
    assert Walk(Node(file), SplitDots("a.b"), inherited) == None;
  }
}
