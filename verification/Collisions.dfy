/**
 * Where text can be taken for a placeholder: never across a line break, so
 * no part of a command collides unless the command does.
 */
module Collisions {
  import opened Text
  import opened QuoteProtection

  lemma {:induction false} UnderscoresExtend(items: seq<Item>, n: nat, newlines: bool, more: seq<Item>)
    requires Underscores(items, n, newlines)
    ensures Underscores(items + more, n, newlines)
  {
    if n > 0 {
      assert (items + more)[1..] == items[1..] + more;
      if items[0].Raw? {
        UnderscoresExtend(items[1..], n - 1, newlines, more);
      }
    }
  }

  lemma {:induction false} UnderscoresEndAtBreak(items: seq<Item>, n: nat, newlines: bool, more: seq<Item>)
    requires Underscores(items + [Raw('\n')] + more, n, newlines)
    ensures Underscores(items, n, newlines)
  {
    var all := items + [Raw('\n')] + more;
    if n > 0 {
      assert all[|items|] == Raw('\n');
      assert items != [];
      assert all[0] == items[0];
      assert all[1..] == items[1..] + [Raw('\n')] + more;
      if items[0].Raw? {
        UnderscoresEndAtBreak(items[1..], n - 1, newlines, more);
      }
    }
  }

  lemma WordExtends(items: seq<Item>, word: string, newlines: bool, more: seq<Item>)
    requires RawText(items, word) && Underscores(items[|word|..], 3, newlines)
    ensures RawText(items + more, word) && Underscores((items + more)[|word|..], 3, newlines)
  {
    UnderscoresExtend(items[|word|..], 3, newlines, more);
    assert (items + more)[|word|..] == items[|word|..] + more;
  }

  lemma WordEndsAtBreak(items: seq<Item>, word: string, newlines: bool, more: seq<Item>)
    requires Breakless(word)
    requires RawText(items + [Raw('\n')] + more, word) && Underscores((items + [Raw('\n')] + more)[|word|..], 3, newlines)
    ensures RawText(items, word) && Underscores(items[|word|..], 3, newlines)
  {
    var all := items + [Raw('\n')] + more;
    assert forall i :: 0 <= i < |word| ==> word[i] in word;
    assert all[|items|] == Raw('\n');
    assert |word| <= |items|;
    assert forall i :: 0 <= i < |word| ==> all[i] == items[i];
    assert all[|word|..] == items[|word|..] + [Raw('\n')] + more;
    UnderscoresEndAtBreak(items[|word|..], 3, newlines, more);
  }

  predicate Fakes(items: seq<Item>) {
    items != [] && (FakesNewline(items) || FakesReturn(items))
  }

  lemma FakeExtends(items: seq<Item>, more: seq<Item>)
    requires Fakes(items)
    ensures Fakes(items + more)
  {
    assert (items + more)[0] == items[0];
    if FakesReturn(items) {
      WordExtends(items, "___CARRIAGE_RETURN", false, more);
    } else if items[0].Raw? {
      WordExtends(items, Repeat('_', 3) + "NEWLINE", true, more);
    } else {
      assert (items + more)[1..] == items[1..] + more;
      var n := if NewlineWord(items[1..], 0) then 0 else if NewlineWord(items[1..], 1) then 1 else 2;
      WordExtends(items[1..], Repeat('_', n) + "NEWLINE", true, more);
    }
  }

  lemma NewlineWordEndsAtBreak(items: seq<Item>, n: nat, more: seq<Item>)
    requires n <= 3 && NewlineWord(items + [Raw('\n')] + more, n)
    ensures NewlineWord(items, n)
  {
    WordEndsAtBreak(items, Repeat('_', n) + "NEWLINE", true, more);
  }

  lemma FakeBegins(items: seq<Item>)
    requires Fakes(items)
    ensures items[0].Raw? ==> items[0].ch == '_'
  {
    assert RawText(items, Repeat('_', 3) + "NEWLINE") ==> items[0] == Raw('_');
  }

  lemma FakeEndsAtBreak(items: seq<Item>, more: seq<Item>)
    requires Fakes(items + [Raw('\n')] + more)
    ensures Fakes(items)
  {
    var all := items + [Raw('\n')] + more;
    FakeBegins(all);
    assert all[|items|] == Raw('\n');
    assert items != [];
    assert all[0] == items[0];
    if FakesReturn(all) {
      WordEndsAtBreak(items, "___CARRIAGE_RETURN", false, more);
    } else if items[0].Raw? {
      NewlineWordEndsAtBreak(items, 3, more);
    } else {
      assert all[1..] == items[1..] + [Raw('\n')] + more;
      var n := if NewlineWord(all[1..], 0) then 0 else if NewlineWord(all[1..], 1) then 1 else 2;
      NewlineWordEndsAtBreak(items[1..], n, more);
    }
  }

  lemma {:induction false} CollisionsExtend(items: seq<Item>, more: seq<Item>)
    requires Collides(items)
    ensures Collides(items + more)
  {
    if Fakes(items) {
      FakeExtends(items, more);
    } else {
      CollisionsExtend(items[1..], more);
      assert (items + more)[1..] == items[1..] + more;
    }
  }

  lemma {:induction false} CollisionsOfRest(items: seq<Item>, k: nat)
    requires k <= |items| && Collides(items[k..])
    ensures Collides(items)
  {
    if k > 0 {
      assert items[k..] == items[1..][k - 1..];
      CollisionsOfRest(items[1..], k - 1);
    }
  }

  /** No stretch of a command collides unless the command does. */
  lemma SliceDoesNotCollide(items: seq<Item>, from: nat, n: nat)
    requires from + n <= |items| && !Collides(items)
    ensures !Collides(items[from..][..n])
  {
    if Collides(items[from..][..n]) {
      CollisionsExtend(items[from..][..n], items[from..][n..]);
      assert items[from..][..n] + items[from..][n..] == items[from..];
      CollisionsOfRest(items, from);
    }
  }

  /** A collision lies on one side of a raw newline. */
  lemma {:induction false} CollisionsEndAtBreak(a: seq<Item>, b: seq<Item>)
    requires Collides(a + [Raw('\n')] + b)
    ensures Collides(a) || Collides(b)
  {
    var all := a + [Raw('\n')] + b;
    if Fakes(all) {
      FakeEndsAtBreak(a, b);
    } else if a == [] {
      assert all[1..] == b;
    } else {
      assert all[1..] == a[1..] + [Raw('\n')] + b;
      CollisionsEndAtBreak(a[1..], b);
    }
  }

  lemma {:induction false} FirstRunIsPrefix(items: seq<Item>)
    ensures SplitItems(items)[0] <= items
    decreases |items|
  {
    if items != [] {
      FirstRunIsPrefix(items[1..]);
      assert items == [items[0]] + items[1..];
      var first := SplitItems(items[1..])[0];
      assert first <= items[1..] ==> [items[0]] + first <= items;
    }
  }

  /** No line of a command collides unless the command does. */
  lemma {:induction false} RunsDoNotCollide(items: seq<Item>, run: seq<Item>)
    requires run in SplitItems(items) && !Collides(items)
    ensures !Collides(run)
    decreases |items|
  {
    var first := SplitItems(items)[0];
    FirstRunIsPrefix(items);
    SliceDoesNotCollide(items, 0, |first|);
    assert items[0..][..|first|] == first;
    if run != first {
      var next := LaterRun(items, run);
      if Collides(items[next..]) {
        CollisionsOfRest(items, next);
      }
      RunsDoNotCollide(items[next..], run);
    }
  }

  lemma LaterRun(items: seq<Item>, run: seq<Item>) returns (next: nat)
    requires run in SplitItems(items) && run != SplitItems(items)[0]
    ensures 0 < next <= |items| && run in SplitItems(items[next..])
  {
    next := if |items| > 1 && items[0] == Raw('\r') && items[1] == Raw('\n') then 2 else 1;
    assert run in SplitItems(items)[1..];
  }

  /** The items of a line are items of the command. */
  lemma {:induction false} RunItems(items: seq<Item>, run: seq<Item>)
    requires run in SplitItems(items)
    ensures forall item :: item in run ==> item in items
    decreases |items|
  {
    FirstRunIsPrefix(items);
    if run != SplitItems(items)[0] {
      var next := LaterRun(items, run);
      RunItems(items[next..], run);
    }
  }
}
