/**
 * Fragments hidden behind numbered placeholders and the fixed passes that
 * restore them (src/shared/parse-command.ts, lines 134-218 and 379-407).
 *
 * A placeholder is one symbol here, so user text never collides with one.
 */
module Placeholders {
  import opened Text

  datatype Kind = Quote | Redirection | ArrayIndex | Arithmetic | Parameter | Variable | Subshell

  datatype Symbol = Ch(c: char) | Ref(kind: Kind, id: nat)

  type Symbols = seq<Symbol>

  /** The seven lists of stored fragments. */
  datatype Store = Store(
    quotes: seq<Symbols>, redirections: seq<Symbols>, arrayIndexing: seq<Symbols>, arithmetic: seq<Symbols>,
    parameters: seq<Symbols>, variables: seq<Symbols>, subshells: seq<Symbols>)
  {
    function Of(kind: Kind): seq<Symbols> {
      match kind
      case Quote => quotes
      case Redirection => redirections
      case ArrayIndex => arrayIndexing
      case Arithmetic => arithmetic
      case Parameter => parameters
      case Variable => variables
      case Subshell => subshells
    }

    function Push(kind: Kind, more: seq<Symbols>): (store: Store)
      ensures forall k :: store.Of(k) == if k == kind then Of(k) + more else Of(k)
    {
      match kind
      case Quote => this.(quotes := quotes + more)
      case Redirection => this.(redirections := redirections + more)
      case ArrayIndex => this.(arrayIndexing := arrayIndexing + more)
      case Arithmetic => this.(arithmetic := arithmetic + more)
      case Parameter => this.(parameters := parameters + more)
      case Variable => this.(variables := variables + more)
      case Subshell => this.(subshells := subshells + more)
    }
  }

  const EMPTY := Store([], [], [], [], [], [], [])

  function Plain(s: string): (t: Symbols)
    ensures |t| == |s| && forall i :: 0 <= i < |s| ==> t[i] == Ch(s[i])
  {
    seq(|s|, i requires 0 <= i < |s| => Ch(s[i]))
  }

  /** What a restored fragment of this kind looks like. */
  function Wrap(kind: Kind, text: Symbols): Symbols {
    if kind == Subshell then Plain("$(") + text + Plain(")") else text
  }

  /** What a reference is replaced by; a reference to nothing reads "undefined". */
  function Fragment(store: Store, kind: Kind, id: nat): Symbols {
    Wrap(kind, if id < |store.Of(kind)| then store.Of(kind)[id] else Plain("undefined"))
  }

  /** One left-to-right replacement of all references whose kind is in `kinds`. */
  function Replace(store: Store, kinds: set<Kind>, text: Symbols): Symbols {
    if text == [] then []
    else ReplaceOne(store, kinds, text[0]) + Replace(store, kinds, text[1..])
  }

  function ReplaceOne(store: Store, kinds: set<Kind>, symbol: Symbol): Symbols {
    if symbol.Ref? && symbol.kind in kinds then Fragment(store, symbol.kind, symbol.id) else [symbol]
  }

  // ---------------------------------------------------------------- the fixed passes

  const PASS_COUNT: nat := 8

  function Pass(p: nat): Kind
    requires p < PASS_COUNT
  {
    if p == 0 then Quote
    else if p == 1 then Redirection
    else if p == 2 then ArrayIndex
    else if p == 3 then Arithmetic
    else if p == 4 then Parameter
    else if p == 5 then Variable
    else if p == 6 then Subshell
    else Redirection
  }

  /** The text after passes `p` and following. */
  function RunFrom(store: Store, p: nat, text: Symbols): Symbols
    requires p <= PASS_COUNT
    decreases PASS_COUNT - p
  {
    if p == PASS_COUNT then text else RunFrom(store, p + 1, Replace(store, {Pass(p)}, text))
  }

  method RestorePlaceholders(command: Symbols, store: Store) returns (result: Symbols)
    ensures result == RunFrom(store, 0, command)
  {
    result := command;
    result := Replace(store, {Quote}, result);
    result := Replace(store, {Redirection}, result);
    result := Replace(store, {ArrayIndex}, result);
    result := Replace(store, {Arithmetic}, result);
    assert RunFrom(store, 0, command) == RunFrom(store, 4, result) by {
      RunUnfolds(store, 0, command);
    }
    ghost var half := result;
    result := Replace(store, {Parameter}, result);
    result := Replace(store, {Variable}, result);
    result := Replace(store, {Subshell}, result);
    result := Replace(store, {Redirection}, result);
    assert RunFrom(store, 4, half) == RunFrom(store, 8, result) by {
      RunUnfolds(store, 4, half);
    }
  }

  lemma RunTwoPasses(store: Store, p: nat, text: Symbols)
    requires p + 2 <= PASS_COUNT
    ensures RunFrom(store, p, text) == RunFrom(store, p + 2, Replace(store, {Pass(p + 1)}, Replace(store, {Pass(p)}, text)))
  {
    var a := Replace(store, {Pass(p)}, text);
    assert RunFrom(store, p, text) == RunFrom(store, p + 1, a);
  }

  lemma RunUnfolds(store: Store, p: nat, text: Symbols)
    requires p + 4 <= PASS_COUNT
    ensures var a := Replace(store, {Pass(p)}, text);
      var b := Replace(store, {Pass(p + 1)}, a);
      var c := Replace(store, {Pass(p + 2)}, b);
      RunFrom(store, p, text) == RunFrom(store, p + 4, Replace(store, {Pass(p + 3)}, c))
  {
    RunTwoPasses(store, p, text);
    RunTwoPasses(store, p + 2, Replace(store, {Pass(p + 1)}, Replace(store, {Pass(p)}, text)));
  }

  // ---------------------------------------------------------------- complete expansion

  const ALL: set<Kind> := {Quote, Redirection, ArrayIndex, Arithmetic, Parameter, Variable, Subshell}

  predicate RefFree(text: Symbols) {
    forall i :: 0 <= i < |text| ==> text[i].Ch?
  }

  /** All references replaced, `n` levels deep. */
  function Expand(store: Store, n: nat, text: Symbols): Symbols {
    if n == 0 then text else Expand(store, n - 1, Replace(store, ALL, text))
  }

  /** `r` is what is left when references have been replaced until none remains. */
  ghost predicate IsExpansion(store: Store, text: Symbols, r: Symbols) {
    RefFree(r) && exists n :: Expand(store, n, text) == r
  }

  /**
   * Every reference meets its own pass, and what is then put in its place
   * needs only passes that are still to come.
   */
  predicate Restorable(store: Store, p: nat, text: Symbols)
    requires p <= PASS_COUNT
    decreases PASS_COUNT - p, 1
  {
    forall i :: 0 <= i < |text| ==> SymbolRestorable(store, p, text[i])
  }

  predicate SymbolRestorable(store: Store, p: nat, symbol: Symbol)
    requires p <= PASS_COUNT
    decreases PASS_COUNT - p, 0
  {
    symbol.Ch? ||
    (p < PASS_COUNT &&
     if Pass(p) == symbol.kind then Restorable(store, p + 1, Fragment(store, symbol.kind, symbol.id))
     else SymbolRestorable(store, p + 1, symbol))
  }

  /** The eight passes give the complete expansion exactly when every reference is restorable. */
  lemma PassesExpandCompletely(store: Store, command: Symbols)
    ensures IsExpansion(store, command, RunFrom(store, 0, command)) <==> Restorable(store, 0, command)
  {
    RunLeavesNone(store, 0, command);
    if Restorable(store, 0, command) {
      RunIsExpand(store, 0, command, 8);
    }
  }

  /** There is at most one complete expansion. */
  lemma ExpansionIsUnique(store: Store, text: Symbols, a: Symbols, b: Symbols)
    requires IsExpansion(store, text, a) && IsExpansion(store, text, b)
    ensures a == b
  {
    var m :| Expand(store, m, text) == a;
    var n :| Expand(store, n, text) == b;
    if m <= n {
      ExpandStops(store, m, n, text);
    } else {
      ExpandStops(store, n, m, text);
    }
  }

  // ---- every step acts on the symbols one by one

  /** What `whole` makes of a text it makes of the symbols one by one. */
  ghost predicate IsSymbolwise(whole: Symbols -> Symbols, one: Symbol -> Symbols) {
    whole([]) == [] && forall text :: text != [] ==> whole(text) == one(text[0]) + whole(text[1..])
  }

  lemma {:induction false} SymbolwiseAppend(whole: Symbols -> Symbols, one: Symbol -> Symbols, a: Symbols, b: Symbols)
    requires IsSymbolwise(whole, one)
    ensures whole(a + b) == whole(a) + whole(b)
  {
    if a == [] {
      assert a + b == b;
    } else {
      SymbolwiseAppend(whole, one, a[1..], b);
      assert (a + b)[1..] == a[1..] + b;
      Associates(one(a[0]), whole(a[1..]), whole(b));
    }
  }

  lemma ReplaceAppend(store: Store, kinds: set<Kind>, a: Symbols, b: Symbols)
    ensures Replace(store, kinds, a + b) == Replace(store, kinds, a) + Replace(store, kinds, b)
  {
    SymbolwiseAppend(text => Replace(store, kinds, text), symbol => ReplaceOne(store, kinds, symbol), a, b);
  }

  lemma ReplaceSingle(store: Store, kinds: set<Kind>, symbol: Symbol)
    ensures Replace(store, kinds, [symbol]) == ReplaceOne(store, kinds, symbol)
  {
    assert Replace(store, kinds, [symbol]) == ReplaceOne(store, kinds, symbol) + [];
  }

  lemma {:induction false} RunAppend(store: Store, p: nat, a: Symbols, b: Symbols)
    requires p <= PASS_COUNT
    ensures RunFrom(store, p, a + b) == RunFrom(store, p, a) + RunFrom(store, p, b)
    decreases PASS_COUNT - p
  {
    if p < PASS_COUNT {
      var kinds := {Pass(p)};
      ReplaceAppend(store, kinds, a, b);
      RunAppend(store, p + 1, Replace(store, kinds, a), Replace(store, kinds, b));
    }
  }

  /** One step acts on appended texts apart, and `whole` takes as many steps as it is told. */
  ghost predicate IsStepwise(whole: (nat, Symbols) -> Symbols, step: Symbols -> Symbols) {
    (forall a, b :: step(a + b) == step(a) + step(b))
    && (forall text :: whole(0, text) == text)
    && forall n: nat, text :: n > 0 ==> whole(n, text) == whole(n - 1, step(text))
  }

  lemma {:induction false} StepwiseAppend(whole: (nat, Symbols) -> Symbols, step: Symbols -> Symbols, n: nat, a: Symbols, b: Symbols)
    requires IsStepwise(whole, step)
    ensures whole(n, a + b) == whole(n, a) + whole(n, b)
  {
    if n > 0 {
      assert step(a + b) == step(a) + step(b);
      assert whole(n, a + b) == whole(n - 1, step(a + b)) && whole(n, a) == whole(n - 1, step(a)) && whole(n, b) == whole(n - 1, step(b));
      StepwiseAppend(whole, step, n - 1, step(a), step(b));
    } else {
      assert whole(0, a + b) == a + b && whole(0, a) == a && whole(0, b) == b;
    }
  }

  function ReplaceWith(store: Store, kinds: set<Kind>): Symbols -> Symbols {
    text => Replace(store, kinds, text)
  }

  function ExpandWith(store: Store): (nat, Symbols) -> Symbols {
    (n: nat, text) => Expand(store, n, text)
  }

  lemma ReplaceIsAppendwise(store: Store, kinds: set<Kind>)
    ensures forall a, b :: ReplaceWith(store, kinds)(a + b) == ReplaceWith(store, kinds)(a) + ReplaceWith(store, kinds)(b)
  {
    forall a, b ensures ReplaceWith(store, kinds)(a + b) == ReplaceWith(store, kinds)(a) + ReplaceWith(store, kinds)(b) {
      ReplaceAppend(store, kinds, a, b);
    }
  }

  lemma ExpandStep(store: Store, kinds: set<Kind>, n: nat, text: Symbols)
    requires kinds == ALL && n > 0
    ensures Expand(store, n, text) == Expand(store, n - 1, Replace(store, kinds, text))
  {
  }

  lemma ExpandTakesSteps(store: Store, kinds: set<Kind>)
    requires kinds == ALL
    ensures forall n: nat, text :: n > 0 ==> ExpandWith(store)(n, text) == ExpandWith(store)(n - 1, ReplaceWith(store, kinds)(text))
  {
    forall n: nat, text | n > 0 ensures ExpandWith(store)(n, text) == ExpandWith(store)(n - 1, ReplaceWith(store, kinds)(text)) {
      ExpandStep(store, kinds, n, text);
    }
  }

  lemma ExpandBegins(store: Store)
    ensures forall text :: ExpandWith(store)(0, text) == text
  {
  }

  lemma ExpandAppend(store: Store, n: nat, a: Symbols, b: Symbols)
    ensures Expand(store, n, a + b) == Expand(store, n, a) + Expand(store, n, b)
  {
    ReplaceIsAppendwise(store, ALL);
    ExpandTakesSteps(store, ALL);
    ExpandBegins(store);
    StepwiseAppend(ExpandWith(store), ReplaceWith(store, ALL), n, a, b);
  }

  lemma {:induction false} RunNothing(store: Store, p: nat)
    requires p <= PASS_COUNT
    ensures RunFrom(store, p, []) == []
    decreases PASS_COUNT - p
  {
    if p < PASS_COUNT { RunNothing(store, p + 1); }
  }

  lemma {:induction false} ExpandNothing(store: Store, n: nat)
    ensures Expand(store, n, []) == []
  {
    if n > 0 { ExpandNothing(store, n - 1); }
  }

  lemma RunStep(store: Store, p: nat, symbol: Symbol)
    requires p < PASS_COUNT
    ensures RunFrom(store, p, [symbol]) == RunFrom(store, p + 1, ReplaceOne(store, {Pass(p)}, symbol))
  {
    ReplaceSingle(store, {Pass(p)}, symbol);
  }

  lemma MeetsNow(store: Store, p: nat, symbol: Symbol)
    requires p < PASS_COUNT && symbol.Ref? && Pass(p) == symbol.kind
    ensures RunFrom(store, p, [symbol]) == RunFrom(store, p + 1, Fragment(store, symbol.kind, symbol.id))
    ensures SymbolRestorable(store, p, symbol) <==> Restorable(store, p + 1, Fragment(store, symbol.kind, symbol.id))
  {
    RunStep(store, p, symbol);
  }

  lemma MeetsLater(store: Store, p: nat, symbol: Symbol)
    requires p < PASS_COUNT && symbol.Ref? && Pass(p) != symbol.kind
    ensures RunFrom(store, p, [symbol]) == RunFrom(store, p + 1, [symbol])
    ensures SymbolRestorable(store, p, symbol) <==> SymbolRestorable(store, p + 1, symbol)
  {
    RunStep(store, p, symbol);
  }

  lemma {:induction false} RunChar(store: Store, p: nat, symbol: Symbol)
    requires p <= PASS_COUNT && symbol.Ch?
    ensures RunFrom(store, p, [symbol]) == [symbol]
    decreases PASS_COUNT - p
  {
    if p < PASS_COUNT {
      RunStep(store, p, symbol);
      RunChar(store, p + 1, symbol);
    }
  }

  lemma RefFreeAppend(a: Symbols, b: Symbols)
    ensures RefFree(a + b) <==> RefFree(a) && RefFree(b)
  {
    if RefFree(a + b) {
      forall i | 0 <= i < |a| ensures a[i].Ch? { assert (a + b)[i] == a[i]; }
      forall i | 0 <= i < |b| ensures b[i].Ch? { assert (a + b)[|a| + i] == b[i]; }
    }
  }

  lemma RestorableCons(store: Store, p: nat, text: Symbols)
    requires p <= PASS_COUNT && text != []
    ensures Restorable(store, p, text) <==> SymbolRestorable(store, p, text[0]) && Restorable(store, p, text[1..])
  {
    if SymbolRestorable(store, p, text[0]) && Restorable(store, p, text[1..]) {
      forall i | 0 <= i < |text| ensures SymbolRestorable(store, p, text[i]) {
        if i > 0 { assert text[1..][i - 1] == text[i]; }
      }
    }
    if Restorable(store, p, text) {
      forall i | 0 <= i < |text[1..]| ensures SymbolRestorable(store, p, text[1..][i]) {
        assert text[1..][i] == text[i + 1];
      }
    }
  }

  // ---- the passes leave no reference exactly when the text is restorable

  lemma {:induction false} RunLeavesNone(store: Store, p: nat, text: Symbols)
    requires p <= PASS_COUNT
    ensures RefFree(RunFrom(store, p, text)) <==> Restorable(store, p, text)
    decreases PASS_COUNT - p, 2, |text|
  {
    if text == [] {
      RunNothing(store, p);
    } else {
      RunLeavesNoneOf(store, p, text[0]);
      RunLeavesNone(store, p, text[1..]);
      assert text == [text[0]] + text[1..];
      RunAppend(store, p, [text[0]], text[1..]);
      RefFreeAppend(RunFrom(store, p, [text[0]]), RunFrom(store, p, text[1..]));
      RestorableCons(store, p, text);
    }
  }

  lemma {:induction false} RunLeavesNoneOf(store: Store, p: nat, symbol: Symbol)
    requires p <= PASS_COUNT
    ensures RefFree(RunFrom(store, p, [symbol])) <==> SymbolRestorable(store, p, symbol)
    decreases PASS_COUNT - p, 1
  {
    if symbol.Ch? {
      RunChar(store, p, symbol);
    } else if p == PASS_COUNT {
      AfterLastPass(store, p, symbol);
    } else if Pass(p) != symbol.kind {
      MeetsLater(store, p, symbol);
      RunLeavesNoneOf(store, p + 1, symbol);
    } else {
      MetLeavesNone(store, p, symbol);
    }
  }

  lemma AfterLastPass(store: Store, p: nat, symbol: Symbol)
    requires p == PASS_COUNT && symbol.Ref?
    ensures !RefFree(RunFrom(store, p, [symbol])) && !SymbolRestorable(store, p, symbol)
  {
    assert [symbol][0].Ref?;
  }

  lemma {:induction false} MetLeavesNone(store: Store, p: nat, symbol: Symbol)
    requires p < PASS_COUNT && symbol.Ref? && Pass(p) == symbol.kind
    ensures RefFree(RunFrom(store, p, [symbol])) <==> SymbolRestorable(store, p, symbol)
    decreases PASS_COUNT - p, 0
  {
    MeetsNow(store, p, symbol);
    RestLeavesNone(store, p + 1, symbol, Fragment(store, symbol.kind, symbol.id));
  }

  lemma {:induction false} RestLeavesNone(store: Store, q: nat, symbol: Symbol, fragment: Symbols)
    requires 0 < q <= PASS_COUNT && RunFrom(store, q - 1, [symbol]) == RunFrom(store, q, fragment)
    requires SymbolRestorable(store, q - 1, symbol) <==> Restorable(store, q, fragment)
    ensures RefFree(RunFrom(store, q - 1, [symbol])) <==> SymbolRestorable(store, q - 1, symbol)
    decreases PASS_COUNT - q, 3
  {
    RunLeavesNone(store, q, fragment);
  }

  // ---- and what they leave is the expansion

  lemma {:induction false} RunIsExpand(store: Store, p: nat, text: Symbols, n: nat)
    requires p <= PASS_COUNT && Restorable(store, p, text) && n >= PASS_COUNT - p
    ensures Expand(store, n, text) == RunFrom(store, p, text)
    decreases PASS_COUNT - p, 1, |text|
  {
    if text == [] {
      RunNothing(store, p);
      ExpandNothing(store, n);
    } else {
      RestorableCons(store, p, text);
      if text[0].Ch? {
        RunChar(store, p, text[0]);
        ExpandChar(store, n, text[0]);
      } else {
        RunIsExpandOf(store, p, text[0], n);
      }
      RunIsExpand(store, p, text[1..], n);
      assert text == [text[0]] + text[1..];
      RunAppend(store, p, [text[0]], text[1..]);
      ExpandAppend(store, n, [text[0]], text[1..]);
    }
  }

  lemma {:induction false} RunIsExpandOf(store: Store, p: nat, symbol: Symbol, n: nat)
    requires p <= PASS_COUNT && SymbolRestorable(store, p, symbol) && n >= PASS_COUNT - p
    requires symbol.Ref?
    ensures Expand(store, n, [symbol]) == RunFrom(store, p, [symbol])
    decreases PASS_COUNT - p, 0
  {
    if Pass(p) == symbol.kind {
      MeetsNow(store, p, symbol);
      ExpandRef(store, n, symbol);
      RestIsExpand(store, p + 1, symbol, n, Fragment(store, symbol.kind, symbol.id));
    } else {
      MeetsLater(store, p, symbol);
      RunIsExpandOf(store, p + 1, symbol, n);
    }
  }

  lemma {:induction false} RestIsExpand(store: Store, q: nat, symbol: Symbol, n: nat, fragment: Symbols)
    requires 0 < q <= PASS_COUNT && RunFrom(store, q - 1, [symbol]) == RunFrom(store, q, fragment)
    requires 0 < n && Expand(store, n, [symbol]) == Expand(store, n - 1, fragment)
    requires Restorable(store, q, fragment) && n > PASS_COUNT - q
    ensures Expand(store, n, [symbol]) == RunFrom(store, q - 1, [symbol])
    decreases PASS_COUNT - q, 2
  {
    RunIsExpand(store, q, fragment, n - 1);
  }

  lemma ExpandChar(store: Store, n: nat, symbol: Symbol)
    requires symbol.Ch?
    ensures Expand(store, n, [symbol]) == [symbol]
  {
    ExpandStops(store, 0, n, [symbol]);
  }

  lemma ExpandRef(store: Store, n: nat, symbol: Symbol)
    requires n > 0 && symbol.Ref?
    ensures Expand(store, n, [symbol]) == Expand(store, n - 1, Fragment(store, symbol.kind, symbol.id))
  {
    ReplaceSingle(store, ALL, symbol);
    EveryKind(symbol.kind);
  }

  /** A reference to nothing comes out as a word. */
  lemma MissingFragmentReadsUndefined(store: Store, kind: Kind, id: nat)
    requires id >= |store.Of(kind)|
    ensures RunFrom(store, 0, [Ref(kind, id)]) == Plain(if kind == Subshell then "$(undefined)" else "undefined")
  {
    var fragment := Fragment(store, kind, id);
    var word := if kind == Subshell then "$(undefined)" else "undefined";
    assert fragment == Plain(word);
    MissingIsExpanded(store, kind, id, fragment);
  }

  lemma MissingIsExpanded(store: Store, kind: Kind, id: nat, fragment: Symbols)
    requires fragment == Fragment(store, kind, id) && RefFree(fragment)
    ensures RunFrom(store, 0, [Ref(kind, id)]) == fragment
  {
    ExpandRef(store, 1, Ref(kind, id));
    assert Expand(store, 1, [Ref(kind, id)]) == fragment;
    PlainIsRestorable(store, kind, id);
    PassesExpandCompletely(store, [Ref(kind, id)]);
    ExpansionIsUnique(store, [Ref(kind, id)], fragment, RunFrom(store, 0, [Ref(kind, id)]));
  }

  lemma PlainIsRestorable(store: Store, kind: Kind, id: nat)
    requires RefFree(Fragment(store, kind, id))
    ensures Restorable(store, 0, [Ref(kind, id)])
  {
    var q := PassOf(kind);
    MeetsPass(store, 0, q, Ref(kind, id));
  }

  function PassOf(kind: Kind): (q: nat)
    ensures q < PASS_COUNT && Pass(q) == kind && forall k :: 0 <= k < q ==> Pass(k) != kind
  {
    match kind
    case Quote => 0
    case Redirection => 1
    case ArrayIndex => 2
    case Arithmetic => 3
    case Parameter => 4
    case Variable => 5
    case Subshell => 6
  }

  lemma {:induction false} MeetsPass(store: Store, p: nat, q: nat, symbol: Symbol)
    requires symbol.Ref? && p <= q < PASS_COUNT && Pass(q) == symbol.kind && forall k :: p <= k < q ==> Pass(k) != symbol.kind
    requires RefFree(Fragment(store, symbol.kind, symbol.id))
    ensures SymbolRestorable(store, p, symbol)
    decreases q - p
  {
    if p < q { MeetsPass(store, p + 1, q, symbol); }
  }

  lemma EveryKind(kind: Kind)
    ensures kind in ALL
  {
    match kind
    case Quote => case Redirection => case ArrayIndex => case Arithmetic =>
    case Parameter => case Variable => case Subshell =>
  }

  /** Once no reference is left, going deeper changes nothing. */
  lemma {:induction false} ExpandStops(store: Store, m: nat, n: nat, text: Symbols)
    requires m <= n && RefFree(Expand(store, m, text))
    ensures Expand(store, n, text) == Expand(store, m, text)
    decreases n
  {
    if m > 0 {
      ExpandStops(store, m - 1, n - 1, Replace(store, ALL, text));
    } else if n > 0 {
      ReplaceNothing(store, text);
      ExpandStops(store, 0, n - 1, text);
    }
  }

  lemma {:induction false} ReplaceNothing(store: Store, text: Symbols)
    requires RefFree(text)
    ensures Replace(store, ALL, text) == text
  {
    if text != [] {
      ReplaceNothing(store, text[1..]);
      assert text == [text[0]] + text[1..];
    }
  }

  // ---------------------------------------------------------------- a condition on the stored fragments alone

  /** The last pass that restores a kind. */
  function Rank(kind: Kind): nat {
    match kind
    case Quote => 0
    case ArrayIndex => 2
    case Arithmetic => 3
    case Parameter => 4
    case Variable => 5
    case Subshell => 6
    case Redirection => 7
  }

  predicate AllRanked(text: Symbols, from: nat) {
    forall i :: 0 <= i < |text| ==> text[i].Ref? ==> Rank(text[i].kind) >= from
  }

  /** Fragments refer only to kinds that are restored later than their own. */
  predicate Ordered(store: Store) {
    forall kind, id :: 0 <= id < |store.Of(kind)| ==> AllRanked(store.Of(kind)[id], Rank(kind) + 1)
  }

  /** With such fragments every command is restored completely. */
  lemma OrderedStoresRestoreEverything(store: Store, command: Symbols)
    requires Ordered(store)
    ensures Restorable(store, 0, command)
  {
    RankedIsRestorable(store, 0, command);
  }

  lemma {:induction false} RankedIsRestorable(store: Store, p: nat, text: Symbols)
    requires Ordered(store) && p <= PASS_COUNT && AllRanked(text, p)
    ensures Restorable(store, p, text)
    decreases PASS_COUNT - p, 1
  {
    forall i | 0 <= i < |text| ensures SymbolRestorable(store, p, text[i]) {
      if text[i].Ref? { RankedSymbol(store, p, text[i]); }
    }
  }

  lemma {:induction false} RankedSymbol(store: Store, p: nat, symbol: Symbol)
    requires Ordered(store) && p <= PASS_COUNT && symbol.Ref? && Rank(symbol.kind) >= p
    ensures SymbolRestorable(store, p, symbol)
    decreases PASS_COUNT - p, 0
  {
    if Pass(p) == symbol.kind {
      var fragment := Fragment(store, symbol.kind, symbol.id);
      WrapRanked(store, symbol.kind, symbol.id);
      assert AllRanked(fragment, p + 1);
      RankedIsRestorable(store, p + 1, fragment);
    } else {
      RankedSymbol(store, p + 1, symbol);
    }
  }

  lemma WrapRanked(store: Store, kind: Kind, id: nat)
    requires Ordered(store)
    ensures AllRanked(Fragment(store, kind, id), Rank(kind) + 1)
  {
    var inner := if id < |store.Of(kind)| then store.Of(kind)[id] else Plain("undefined");
    assert AllRanked(inner, Rank(kind) + 1);
    var open, close := Plain("$("), Plain(")");
    forall i | 0 <= i < |open + inner + close| && (open + inner + close)[i].Ref?
      ensures Rank((open + inner + close)[i].kind) >= Rank(kind) + 1
    {
      assert |open| <= i < |open| + |inner|;
      assert (open + inner + close)[i] == inner[i - |open|];
    }
  }

  // ---------------------------------------------------------------- where the order is not enough

  /**
   * A parameter expansion that holds an arithmetic expansion, or anything else restored
   * no later than itself, keeps the inner placeholder in the result.
   */
  lemma ParameterHoldingArithmeticLeaks(store: Store, command: Symbols, i: nat, j: nat)
    requires i < |command| && command[i].Ref? && command[i].kind == Parameter && command[i].id < |store.parameters|
    requires var inner := store.parameters[command[i].id];
      j < |inner| && inner[j].Ref? && inner[j].kind in {Quote, ArrayIndex, Arithmetic, Parameter}
    ensures !IsExpansion(store, command, RunFrom(store, 0, command))
  {
    LeaksAfter(store, 5, store.parameters[command[i].id][j]);
    SkipTo(store, 0, 4, command[i]);
    PassesExpandCompletely(store, command);
  }

  /** So does a substitution whose body holds anything but a redirection: a variable, say. */
  lemma SubshellHoldingVariableLeaks(store: Store, command: Symbols, i: nat, j: nat)
    requires i < |command| && command[i].Ref? && command[i].kind == Subshell && command[i].id < |store.subshells|
    requires var inner := store.subshells[command[i].id];
      j < |inner| && inner[j].Ref? && inner[j].kind != Redirection
    ensures !IsExpansion(store, command, RunFrom(store, 0, command))
  {
    var inner := store.subshells[command[i].id];
    assert Wrap(Subshell, inner)[2 + j] == inner[j];
    LeaksAfter(store, 7, inner[j]);
    SkipTo(store, 0, 6, command[i]);
    PassesExpandCompletely(store, command);
  }

  lemma {:induction false} LeaksAfter(store: Store, p: nat, symbol: Symbol)
    requires p <= PASS_COUNT && symbol.Ref? && forall q :: p <= q < PASS_COUNT ==> Pass(q) != symbol.kind
    ensures !SymbolRestorable(store, p, symbol)
    decreases PASS_COUNT - p
  {
    if p < PASS_COUNT { LeaksAfter(store, p + 1, symbol); }
  }

  lemma {:induction false} SkipTo(store: Store, p: nat, q: nat, symbol: Symbol)
    requires p <= q < PASS_COUNT && symbol.Ref? && forall k :: p <= k < q ==> Pass(k) != symbol.kind
    ensures SymbolRestorable(store, p, symbol) == SymbolRestorable(store, q, symbol)
    decreases q - p
  {
    if p < q { SkipTo(store, p + 1, q, symbol); }
  }

  // ---------------------------------------------------------------- capturing

  /** One symbol kept by a capturing pass, or a matched span and what is stored for it. */
  datatype Segment = Keep(symbol: Symbol) | Span(matched: Symbols, stored: Symbols)

  function Input(segments: seq<Segment>): Symbols {
    if segments == [] then []
    else (match segments[0] case Keep(s) => [s] case Span(matched, _) => matched) + Input(segments[1..])
  }

  /** The text a pass leaves, its references numbered from `first`. */
  function Output(kind: Kind, segments: seq<Segment>, first: nat): Symbols {
    if segments == [] then []
    else match segments[0]
      case Keep(s) => [s] + Output(kind, segments[1..], first)
      case Span(_, _) => [Ref(kind, first)] + Output(kind, segments[1..], first + 1)
  }

  function Stored(segments: seq<Segment>): seq<Symbols> {
    if segments == [] then []
    else match segments[0]
      case Keep(_) => Stored(segments[1..])
      case Span(_, stored) => [stored] + Stored(segments[1..])
  }

  /** The input with each span rewritten as it will be restored. */
  function Rewritten(kind: Kind, segments: seq<Segment>): Symbols {
    if segments == [] then []
    else (match segments[0] case Keep(s) => [s] case Span(_, stored) => Wrap(kind, stored)) + Rewritten(kind, segments[1..])
  }

  predicate InRange(store: Store, text: Symbols) {
    forall i :: 0 <= i < |text| && text[i].Ref? ==> text[i].id < |store.Of(text[i].kind)|
  }

  /** Stored fragments refer to stored fragments. */
  predicate Closed(store: Store) {
    forall kind, id :: 0 <= id < |store.Of(kind)| ==> InRange(store, store.Of(kind)[id])
  }

  datatype Capture = Capture(kind: Kind, segments: seq<Segment>)
  {
    /** Spans that restoring writes back exactly as they were matched. */
    predicate Exact() {
      forall i :: 0 <= i < |segments| && segments[i].Span? ==> Wrap(kind, segments[i].stored) == segments[i].matched
    }
  }

  /** The store and the text after a run of capturing passes. */
  function StoreAfter(store: Store, captures: seq<Capture>): Store
    decreases |captures|
  {
    if captures == [] then store
    else StoreAfter(store.Push(captures[0].kind, Stored(captures[0].segments)), captures[1..])
  }

  function TextAfter(store: Store, text: Symbols, captures: seq<Capture>): Symbols
    decreases |captures|
  {
    if captures == [] then text
    else
      var c := captures[0];
      TextAfter(store.Push(c.kind, Stored(c.segments)), Output(c.kind, c.segments, |store.Of(c.kind)|), captures[1..])
  }

  /** Each pass works on the text that the one before it left. */
  predicate IsRun(store: Store, text: Symbols, captures: seq<Capture>)
    decreases |captures|
  {
    captures == [] ||
    var c := captures[0];
    Input(c.segments) == text &&
    IsRun(store.Push(c.kind, Stored(c.segments)), Output(c.kind, c.segments, |store.Of(c.kind)|), captures[1..])
  }

  /**
   * Whatever spans the passes match, in whatever order: restoring gives the command
   * back exactly when the references that are left are restorable.
   */
  lemma CaptureThenRestore(command: Symbols, captures: seq<Capture>)
    requires RefFree(command) && IsRun(EMPTY, command, captures)
    requires forall c :: c in captures ==> c.Exact()
    ensures var store, left := StoreAfter(EMPTY, captures), TextAfter(EMPTY, command, captures);
      && IsExpansion(store, left, command)
      && (RunFrom(store, 0, left) == command <==> Restorable(store, 0, left))
  {
    var store, left := StoreAfter(EMPTY, captures), TextAfter(EMPTY, command, captures);
    assert Expand(EMPTY, 0, command) == command;
    RunKeepsExpansion(EMPTY, command, captures, command);
    PassesExpandCompletely(store, left);
    if Restorable(store, 0, left) {
      ExpansionIsUnique(store, left, command, RunFrom(store, 0, left));
    }
  }

  // ---- the words of a line

  /** Words with what stands around and between them. */
  function Interleaved(words: seq<Symbols>, between: seq<Symbols>): Symbols
    requires |between| == |words| + 1
  {
    if words == [] then between[0] else between[0] + (words[0] + Interleaved(words[1..], between[1..]))
  }

  function AllRestored(store: Store, words: seq<Symbols>): (restored: seq<Symbols>)
    ensures |restored| == |words|
    ensures forall i :: 0 <= i < |words| ==> restored[i] == RunFrom(store, 0, words[i])
  {
    seq(|words|, i requires 0 <= i < |words| => RunFrom(store, 0, words[i]))
  }

  /**
   * However the captured line is cut into pieces, with the bodies of substitutions left
   * in place, restoring the pieces one by one gives the line as it was written, each at
   * its own place, when all references are restorable, and never when some are not.
   */
  lemma WordsComeFromTheLine(command: Symbols, captures: seq<Capture>, words: seq<Symbols>, between: seq<Symbols>)
    requires RefFree(command) && IsRun(EMPTY, command, captures)
    requires forall c :: c in captures ==> c.Exact()
    requires |between| == |words| + 1 && forall i :: 0 <= i < |between| ==> RefFree(between[i])
    requires TextAfter(EMPTY, command, captures) == Interleaved(words, between)
    ensures var store := StoreAfter(EMPTY, captures);
      Interleaved(AllRestored(store, words), between) == command <==> Restorable(store, 0, Interleaved(words, between))
  {
    CaptureThenRestore(command, captures);
    RestoresWordByWord(StoreAfter(EMPTY, captures), words, between);
  }

  lemma {:induction false} RestoresWordByWord(store: Store, words: seq<Symbols>, between: seq<Symbols>)
    requires |between| == |words| + 1 && forall i :: 0 <= i < |between| ==> RefFree(between[i])
    ensures RunFrom(store, 0, Interleaved(words, between)) == Interleaved(AllRestored(store, words), between)
  {
    RunKeepsPlain(store, 0, between[0]);
    if words != [] {
      var rest := Interleaved(words[1..], between[1..]);
      RestoresWordByWord(store, words[1..], between[1..]);
      RunAppend(store, 0, between[0], words[0] + rest);
      RunAppend(store, 0, words[0], rest);
      assert AllRestored(store, words)[1..] == AllRestored(store, words[1..]);
    }
  }

  lemma {:induction false} RunKeepsPlain(store: Store, p: nat, text: Symbols)
    requires p <= PASS_COUNT && RefFree(text)
    ensures RunFrom(store, p, text) == text
    decreases PASS_COUNT - p
  {
    if p < PASS_COUNT {
      ReplaceKeepsPlain(store, {Pass(p)}, text);
      RunKeepsPlain(store, p + 1, text);
    }
  }

  lemma {:induction false} ReplaceKeepsPlain(store: Store, kinds: set<Kind>, text: Symbols)
    requires RefFree(text)
    ensures Replace(store, kinds, text) == text
  {
    if text != [] {
      ReplaceKeepsPlain(store, kinds, text[1..]);
      assert [text[0]] + text[1..] == text;
    }
  }

  lemma {:induction false} RunKeepsExpansion(store: Store, text: Symbols, captures: seq<Capture>, r: Symbols)
    requires Closed(store) && InRange(store, text) && IsRun(store, text, captures)
    requires forall c :: c in captures ==> c.Exact()
    requires IsExpansion(store, text, r)
    ensures IsExpansion(StoreAfter(store, captures), TextAfter(store, text, captures), r)
    decreases |captures|
  {
    if captures != [] {
      var c := captures[0];
      var next := store.Push(c.kind, Stored(c.segments));
      var output := Output(c.kind, c.segments, |store.Of(c.kind)|);
      ExactIsUnchanged(c);
      CaptureKeepsExpansion(store, c, r);
      CaptureStaysInRange(store, c);
      RunKeepsExpansion(next, output, captures[1..], r);
    }
  }

  lemma {:induction false} ExactIsUnchanged(c: Capture)
    requires c.Exact()
    ensures Rewritten(c.kind, c.segments) == Input(c.segments)
    decreases |c.segments|
  {
    if c.segments != [] {
      var rest := Capture(c.kind, c.segments[1..]);
      forall i | 0 <= i < |rest.segments| && rest.segments[i].Span?
        ensures Wrap(c.kind, rest.segments[i].stored) == rest.segments[i].matched
      {
        assert rest.segments[i] == c.segments[i + 1];
      }
      ExactIsUnchanged(rest);
    }
  }

  /** Capturing changes the text but not what it expands to, except that spans are rewritten. */
  lemma CaptureKeepsExpansion(store: Store, c: Capture, r: Symbols)
    requires Closed(store) && InRange(store, Rewritten(c.kind, c.segments))
    requires IsExpansion(store, Rewritten(c.kind, c.segments), r)
    ensures IsExpansion(store.Push(c.kind, Stored(c.segments)), Output(c.kind, c.segments, |store.Of(c.kind)|), r)
  {
    var next := store.Push(c.kind, Stored(c.segments));
    var n :| Expand(store, n, Rewritten(c.kind, c.segments)) == r;
    ExpandInBigger(store, next, n, Rewritten(c.kind, c.segments));
    var first := |store.Of(c.kind)|;
    PushHolds(next, c.kind, store.Of(c.kind), c.segments);
    OutputExpands(next, c.kind, c.segments, first, n);
  }

  /** The stored texts stand in the store, in order, from `first` on. */
  predicate Holds(store: Store, kind: Kind, segments: seq<Segment>, first: nat) {
    segments == [] ||
    match segments[0]
    case Keep(_) => Holds(store, kind, segments[1..], first)
    case Span(_, text) => first < |store.Of(kind)| && store.Of(kind)[first] == text && Holds(store, kind, segments[1..], first + 1)
  }

  lemma {:induction false} PushHolds(store: Store, kind: Kind, before: seq<Symbols>, segments: seq<Segment>)
    requires store.Of(kind) == before + Stored(segments)
    ensures Holds(store, kind, segments, |before|)
    decreases |segments|
  {
    if segments != [] {
      match segments[0]
      case Keep(_) =>
        PushHolds(store, kind, before, segments[1..]);
      case Span(_, text) =>
        assert before + Stored(segments) == (before + [text]) + Stored(segments[1..]);
        PushHolds(store, kind, before + [text], segments[1..]);
    }
  }

  lemma {:induction false} OutputExpands(store: Store, kind: Kind, segments: seq<Segment>, first: nat, n: nat)
    requires Holds(store, kind, segments, first)
    requires RefFree(Expand(store, n, Rewritten(kind, segments)))
    ensures Expand(store, n + 1, Output(kind, segments, first)) == Expand(store, n, Rewritten(kind, segments))
    decreases |segments|
  {
    if segments == [] {
      ExpandNothing(store, n);
      ExpandNothing(store, n + 1);
    } else {
      var rest := segments[1..];
      match segments[0]
      case Keep(s) =>
        PiecesRefFree(store, n, [s], Rewritten(kind, rest));
        OutputExpands(store, kind, rest, first, n);
        KeepExpands(store, n, s, Output(kind, rest, first), Rewritten(kind, rest));
      case Span(_, text) =>
        PiecesRefFree(store, n, Wrap(kind, text), Rewritten(kind, rest));
        OutputExpands(store, kind, rest, first + 1, n);
        SpanExpands(store, n, kind, first, Wrap(kind, text), Output(kind, rest, first + 1), Rewritten(kind, rest));
    }
  }

  lemma KeepExpands(store: Store, n: nat, s: Symbol, output: Symbols, rest: Symbols)
    requires Expand(store, n + 1, output) == Expand(store, n, rest) && RefFree(Expand(store, n, [s]))
    ensures Expand(store, n + 1, [s] + output) == Expand(store, n, [s] + rest)
  {
    ExpandStops(store, n, n + 1, [s]);
    PiecesExpand(store, n, [s], [s], output, rest);
  }

  lemma SpanExpands(store: Store, n: nat, kind: Kind, first: nat, fragment: Symbols, output: Symbols, rest: Symbols)
    requires Expand(store, n + 1, output) == Expand(store, n, rest) && Fragment(store, kind, first) == fragment
    ensures Expand(store, n + 1, [Ref(kind, first)] + output) == Expand(store, n, fragment + rest)
  {
    ExpandRef(store, n + 1, Ref(kind, first));
    PiecesExpand(store, n, [Ref(kind, first)], fragment, output, rest);
  }

  lemma PiecesExpand(store: Store, n: nat, a: Symbols, b: Symbols, aRest: Symbols, bRest: Symbols)
    requires Expand(store, n + 1, a) == Expand(store, n, b) && Expand(store, n + 1, aRest) == Expand(store, n, bRest)
    ensures Expand(store, n + 1, a + aRest) == Expand(store, n, b + bRest)
  {
    ExpandAppend(store, n + 1, a, aRest);
    ExpandAppend(store, n, b, bRest);
  }

  lemma PiecesRefFree(store: Store, n: nat, a: Symbols, b: Symbols)
    requires RefFree(Expand(store, n, a + b))
    ensures Expand(store, n, a + b) == Expand(store, n, a) + Expand(store, n, b)
    ensures RefFree(Expand(store, n, a)) && RefFree(Expand(store, n, b))
  {
    ExpandAppend(store, n, a, b);
    RefFreeAppend(Expand(store, n, a), Expand(store, n, b));
  }

  // ---- pushing fragments leaves old references alone

  predicate Extends(store: Store, next: Store) {
    forall kind :: |store.Of(kind)| <= |next.Of(kind)| && next.Of(kind)[..|store.Of(kind)|] == store.Of(kind)
  }

  lemma {:induction false} ExpandInBigger(store: Store, next: Store, n: nat, text: Symbols)
    requires Closed(store) && InRange(store, text) && Extends(store, next)
    ensures Expand(next, n, text) == Expand(store, n, text)
    decreases n
  {
    if n > 0 {
      ReplaceInBigger(store, next, text);
      ExpandInBigger(store, next, n - 1, Replace(store, ALL, text));
    }
  }

  lemma {:induction false} ReplaceInBigger(store: Store, next: Store, text: Symbols)
    requires Closed(store) && InRange(store, text) && Extends(store, next)
    ensures Replace(next, ALL, text) == Replace(store, ALL, text) && InRange(store, Replace(store, ALL, text))
  {
    if text != [] {
      var s, rest := text[0], text[1..];
      forall i | 0 <= i < |rest| && rest[i].Ref? ensures rest[i].id < |store.Of(rest[i].kind)| {
        assert rest[i] == text[i + 1];
      }
      ReplaceInBigger(store, next, rest);
      OneInBigger(store, next, s);
      InRangeAppend(store, ReplaceOne(store, ALL, s), Replace(store, ALL, rest));
    }
  }

  lemma OneInBigger(store: Store, next: Store, s: Symbol)
    requires Closed(store) && Extends(store, next) && (s.Ref? ==> s.id < |store.Of(s.kind)|)
    ensures ReplaceOne(next, ALL, s) == ReplaceOne(store, ALL, s) && InRange(store, ReplaceOne(store, ALL, s))
  {
    if s.Ref? {
      EveryKind(s.kind);
      assert next.Of(s.kind)[s.id] == next.Of(s.kind)[..|store.Of(s.kind)|][s.id] == store.Of(s.kind)[s.id];
      assert InRange(store, store.Of(s.kind)[s.id]);
      WrapInRange(store, s.kind, store.Of(s.kind)[s.id]);
    }
  }

  lemma InRangeAppend(store: Store, a: Symbols, b: Symbols)
    ensures InRange(store, a + b) <==> InRange(store, a) && InRange(store, b)
  {
    if InRange(store, a + b) {
      forall i | 0 <= i < |a| && a[i].Ref? ensures a[i].id < |store.Of(a[i].kind)| { assert (a + b)[i] == a[i]; }
      forall i | 0 <= i < |b| && b[i].Ref? ensures b[i].id < |store.Of(b[i].kind)| { assert (a + b)[|a| + i] == b[i]; }
    }
  }

  lemma WrapInRange(store: Store, kind: Kind, text: Symbols)
    ensures InRange(store, Wrap(kind, text)) <==> InRange(store, text)
  {
    InRangeAppend(store, Plain("$("), text);
    InRangeAppend(store, Plain("$(") + text, Plain(")"));
  }

  lemma InRangeOfBigger(store: Store, next: Store, text: Symbols)
    requires Extends(store, next) && InRange(store, text)
    ensures InRange(next, text)
  {
    forall i | 0 <= i < |text| && text[i].Ref? ensures text[i].id < |next.Of(text[i].kind)| {
      assert text[i].id < |store.Of(text[i].kind)|;
    }
  }

  lemma CaptureStaysInRange(store: Store, c: Capture)
    requires Closed(store) && InRange(store, Rewritten(c.kind, c.segments))
    ensures var next := store.Push(c.kind, Stored(c.segments));
      Closed(next) && InRange(next, Output(c.kind, c.segments, |store.Of(c.kind)|))
  {
    var next := store.Push(c.kind, Stored(c.segments));
    SegmentsInRange(store, next, c.kind, c.segments, |store.Of(c.kind)|);
    forall kind, id | 0 <= id < |next.Of(kind)| ensures InRange(next, next.Of(kind)[id]) {
      if id < |store.Of(kind)| {
        assert next.Of(kind)[id] == store.Of(kind)[id];
        InRangeOfBigger(store, next, store.Of(kind)[id]);
      } else {
        assert next.Of(kind)[id] == Stored(c.segments)[id - |store.Of(kind)|];
      }
    }
  }

  lemma {:induction false} SegmentsInRange(store: Store, next: Store, kind: Kind, segments: seq<Segment>, first: nat)
    requires Extends(store, next) && InRange(store, Rewritten(kind, segments))
    requires first + |Stored(segments)| <= |next.Of(kind)|
    ensures InRange(next, Output(kind, segments, first))
    ensures forall i :: 0 <= i < |Stored(segments)| ==> InRange(next, Stored(segments)[i])
    decreases |segments|
  {
    if segments != [] {
      var rest := segments[1..];
      match segments[0]
      case Keep(s) =>
        assert Rewritten(kind, segments) == [s] + Rewritten(kind, rest);
        InRangeAppend(store, [s], Rewritten(kind, rest));
        SegmentsInRange(store, next, kind, rest, first);
        InRangeOfBigger(store, next, [s]);
        InRangeAppend(next, [s], Output(kind, rest, first));
      case Span(_, text) =>
        assert Rewritten(kind, segments) == Wrap(kind, text) + Rewritten(kind, rest);
        InRangeAppend(store, Wrap(kind, text), Rewritten(kind, rest));
        WrapInRange(store, kind, text);
        assert Stored(segments) == [text] + Stored(rest);
        SegmentsInRange(store, next, kind, rest, first + 1);
        InRangeOfBigger(store, next, text);
        RefInRange(next, kind, first);
        InRangeAppend(next, [Ref(kind, first)], Output(kind, rest, first + 1));
    }
  }

  lemma RefInRange(store: Store, kind: Kind, id: nat)
    requires id < |store.Of(kind)|
    ensures InRange(store, [Ref(kind, id)])
  {
  }
}
