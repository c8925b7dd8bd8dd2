/** The languages of grammar syntax at any depth, and how they compose. */
module GbnfLanguages {
  import opened Languages
  import opened GbnfSyntax
  import opened GbnfMeaning

  type Lang = iset<Word>

  ghost predicate InItem(g: Rules, item: Item, w: Word) {
    exists d: nat :: ItemMatches(g, d, item, w)
  }

  ghost predicate InSequence(g: Rules, s: Sequence, w: Word) {
    exists d: nat :: SequenceMatches(g, d, s, w)
  }

  ghost predicate InAlternatives(g: Rules, alts: Alternatives, w: Word) {
    exists d: nat :: AlternativesMatch(g, d, alts, w)
  }

  ghost function OfItem(g: Rules, item: Item): Lang {
    iset w | InItem(g, item, w)
  }

  ghost function OfSequence(g: Rules, s: Sequence): Lang {
    iset w | InSequence(g, s, w)
  }

  ghost function OfAlternatives(g: Rules, alts: Alternatives): Lang {
    iset w | InAlternatives(g, alts, w)
  }

  /** `w` is a word of `a`, then one of `b`, split at `i`. */
  ghost predicate SplitsAt(a: Lang, b: Lang, w: Word, i: nat) {
    i <= |w| && w[..i] in a && w[i..] in b
  }

  ghost predicate Splits(a: Lang, b: Lang, w: Word) {
    exists i: nat :: SplitsAt(a, b, w, i)
  }

  ghost function Cat(a: Lang, b: Lang): Lang {
    iset w | Splits(a, b, w)
  }

  ghost predicate Repeats(a: Lang, w: Word) {
    exists k: nat :: Power(a, k, w)
  }

  /** Any number of words of `a`. */
  ghost function Closure(a: Lang): Lang {
    iset w | Repeats(a, w)
  }

  lemma EmptyLanguage(g: Rules)
    ensures OfSequence(g, Empty) == iset{[]}
  {
    assert SequenceMatches(g, 0, Empty, []);
  }

  lemma SnocLanguage(g: Rules, init: Sequence, last: Item)
    ensures OfSequence(g, Snoc(init, last)) == Cat(OfSequence(g, init), OfItem(g, last))
  {
    forall w | w in OfSequence(g, Snoc(init, last))
      ensures w in Cat(OfSequence(g, init), OfItem(g, last))
    {
      var d: nat :| SequenceMatches(g, d, Snoc(init, last), w);
      SnocSplits(g, d, init, last, w);
    }
    forall w | w in Cat(OfSequence(g, init), OfItem(g, last))
      ensures w in OfSequence(g, Snoc(init, last))
    {
      var i: nat :| SplitsAt(OfSequence(g, init), OfItem(g, last), w, i);
      var d: nat :| SequenceMatches(g, d, init, w[..i]);
      var e: nat :| ItemMatches(g, e, last, w[i..]);
      SnocJoins(g, d, e, init, last, w, i);
    }
  }

  lemma SnocSplits(g: Rules, d: nat, init: Sequence, last: Item, w: Word)
    requires SequenceMatches(g, d, Snoc(init, last), w)
    ensures w in Cat(OfSequence(g, init), OfItem(g, last))
  {
    var i :| 0 <= i <= |w| && SequenceMatches(g, d, init, w[..i]) && ItemMatches(g, d, last, w[i..]);
    assert SplitsAt(OfSequence(g, init), OfItem(g, last), w, i);
  }

  lemma SnocJoins(g: Rules, d: nat, e: nat, init: Sequence, last: Item, w: Word, i: nat)
    requires i <= |w| && SequenceMatches(g, d, init, w[..i]) && ItemMatches(g, e, last, w[i..])
    ensures w in OfSequence(g, Snoc(init, last))
  {
    SequenceDeeper(g, d, d + e, init, w[..i]);
    ItemDeeper(g, e, d + e, last, w[i..]);
    assert SequenceMatches(g, d + e, Snoc(init, last), w);
  }

  lemma OneLanguage(g: Rules, item: Item)
    ensures OfSequence(g, Snoc(Empty, item)) == OfItem(g, item)
  {
    SnocLanguage(g, Empty, item);
    EmptyLanguage(g);
    CatEmpty(OfItem(g, item));
  }

  lemma CatEmpty(a: Lang)
    ensures Cat(iset{[]}, a) == a
  {
    forall w | w in a
      ensures w in Cat(iset{[]}, a)
    {
      assert w[..0] == [] && w[0..] == w;
      assert SplitsAt(iset{[]}, a, w, 0);
    }
    forall w | w in Cat(iset{[]}, a)
      ensures w in a
    {
      var i: nat :| SplitsAt(iset{[]}, a, w, i);
      assert |w[..i]| == 0;
      assert w[0..] == w;
    }
  }

  lemma CatAssociative(a: Lang, b: Lang, c: Lang)
    ensures Cat(Cat(a, b), c) == Cat(a, Cat(b, c))
  {
    forall w | w in Cat(Cat(a, b), c)
      ensures w in Cat(a, Cat(b, c))
    {
      var j: nat :| SplitsAt(Cat(a, b), c, w, j);
      var i: nat :| SplitsAt(a, b, w[..j], i);
      assert w[..j][..i] == w[..i] && w[..j][i..] == w[i..][..j - i] && w[i..][j - i..] == w[j..];
      assert SplitsAt(b, c, w[i..], j - i);
      assert SplitsAt(a, Cat(b, c), w, i);
    }
    forall w | w in Cat(a, Cat(b, c))
      ensures w in Cat(Cat(a, b), c)
    {
      var i: nat :| SplitsAt(a, Cat(b, c), w, i);
      var n: nat :| SplitsAt(b, c, w[i..], n);
      assert w[..i + n][..i] == w[..i] && w[..i + n][i..] == w[i..][..n] && w[i..][n..] == w[i + n..];
      assert SplitsAt(a, b, w[..i + n], i);
      assert SplitsAt(Cat(a, b), c, w, i + n);
    }
  }

  lemma RefLanguage(g: Rules, name: string)
    requires name in g
    ensures OfItem(g, Ref(name)) == OfAlternatives(g, g[name])
  {
    forall w
      ensures w in OfItem(g, Ref(name)) <==> w in OfAlternatives(g, g[name])
    {
      if w in OfItem(g, Ref(name)) {
        var d: nat :| ItemMatches(g, d, Ref(name), w);
        assert AlternativesMatch(g, d - 1, g[name], w);
      }
      if w in OfAlternatives(g, g[name]) {
        var d: nat :| AlternativesMatch(g, d, g[name], w);
        assert ItemMatches(g, d + 1, Ref(name), w);
      }
    }
  }

  lemma GroupLanguage(g: Rules, alts: Alternatives)
    ensures OfItem(g, Group(alts)) == OfAlternatives(g, alts)
  {
    forall w
      ensures w in OfItem(g, Group(alts)) <==> w in OfAlternatives(g, alts)
    {
      assert forall d: nat :: ItemMatches(g, d, Group(alts), w) <==> AlternativesMatch(g, d, alts, w);
    }
  }

  lemma OnlyLanguage(g: Rules, s: Sequence)
    ensures OfAlternatives(g, Only(s)) == OfSequence(g, s)
  {
    forall w
      ensures w in OfAlternatives(g, Only(s)) <==> w in OfSequence(g, s)
    {
      assert forall d: nat :: AlternativesMatch(g, d, Only(s), w) <==> SequenceMatches(g, d, s, w);
    }
  }

  lemma OrLanguage(g: Rules, init: Alternatives, last: Sequence)
    ensures OfAlternatives(g, Or(init, last)) == OfAlternatives(g, init) + OfSequence(g, last)
  {
    forall w
      ensures w in OfAlternatives(g, Or(init, last)) <==> w in OfAlternatives(g, init) || w in OfSequence(g, last)
    {
      assert forall d: nat :: AlternativesMatch(g, d, Or(init, last), w) <==>
        AlternativesMatch(g, d, init, w) || SequenceMatches(g, d, last, w);
    }
  }

  lemma PowerCons(lang: Lang, k: nat, w: Word, i: nat)
    requires i <= |w| && w[..i] in lang && Power(lang, k, w[i..])
    ensures Power(lang, k + 1, w)
  {
  }

  /** Enough depth for all copies at once. */
  lemma {:induction false} PowerAtDepth(g: Rules, item: Item, k: nat, w: Word) returns (d: nat)
    requires Power(OfItem(g, item), k, w)
    ensures Power(ItemLanguage(g, d, item), k, w)
  {
    if k == 0 {
      d := 0;
    } else {
      var i := PowerUncons(OfItem(g, item), k, w);
      assert InItem(g, item, w[..i]);
      var d1: nat :| ItemMatches(g, d1, item, w[..i]);
      var d2 := PowerAtDepth(g, item, k - 1, w[i..]);
      d := d1 + d2;
      PowerJoinsAtDepth(g, item, d1, d2, k - 1, w, i);
    }
  }

  lemma PowerJoinsAtDepth(g: Rules, item: Item, d1: nat, d2: nat, k: nat, w: Word, i: nat)
    requires i <= |w| && ItemMatches(g, d1, item, w[..i]) && Power(ItemLanguage(g, d2, item), k, w[i..])
    ensures Power(ItemLanguage(g, d1 + d2, item), k + 1, w)
  {
    ItemDeeper(g, d1, d1 + d2, item, w[..i]);
    DeeperPower(g, d2, d1 + d2, item, k, w[i..]);
    PowerCons(ItemLanguage(g, d1 + d2, item), k, w, i);
  }

  lemma DeeperPower(g: Rules, d: nat, deeper: nat, item: Item, k: nat, w: Word)
    requires d <= deeper && Power(ItemLanguage(g, d, item), k, w)
    ensures Power(ItemLanguage(g, deeper, item), k, w)
  {
    forall v | v in ItemLanguage(g, d, item)
      ensures v in ItemLanguage(g, deeper, item)
    {
      ItemDeeper(g, d, deeper, item, v);
    }
    PowerMonotone(ItemLanguage(g, d, item), ItemLanguage(g, deeper, item), k, w);
  }

  lemma RepeatLanguage(g: Rules, item: Item, op: Repetition, w: Word)
    ensures w in OfItem(g, Repeat(item, op)) <==> exists k: nat :: CountAllowed(op, k) && Power(OfItem(g, item), k, w)
  {
    if w in OfItem(g, Repeat(item, op)) {
      var d: nat :| ItemMatches(g, d, Repeat(item, op), w);
      var k: nat :| CountAllowed(op, k) && Power(ItemLanguage(g, d, item), k, w);
      forall v | v in ItemLanguage(g, d, item)
        ensures v in OfItem(g, item)
      {
        assert ItemMatches(g, d, item, v);
      }
      PowerMonotone(ItemLanguage(g, d, item), OfItem(g, item), k, w);
    }
    forall k: nat | CountAllowed(op, k) && Power(OfItem(g, item), k, w)
      ensures w in OfItem(g, Repeat(item, op))
    {
      var d := PowerAtDepth(g, item, k, w);
      assert ItemMatches(g, d, Repeat(item, op), w);
    }
  }

  /** A dot stands for every single character. */
  lemma AnyCharLanguage(g: Rules, w: Word)
    ensures w in OfItem(g, AnyChar) <==> |w| == 1
  {
    assert |w| == 1 ==> ItemMatches(g, 0, AnyChar, w);
  }

  lemma StarLanguage(g: Rules, item: Item)
    ensures OfItem(g, Repeat(item, Star)) == Closure(OfItem(g, item))
  {
    forall w | w in OfItem(g, Repeat(item, Star))
      ensures w in Closure(OfItem(g, item))
    {
      RepeatLanguage(g, item, Star, w);
      var k: nat :| CountAllowed(Star, k) && Power(OfItem(g, item), k, w);
      assert Repeats(OfItem(g, item), w);
    }
    forall w | w in Closure(OfItem(g, item))
      ensures w in OfItem(g, Repeat(item, Star))
    {
      var k: nat :| Power(OfItem(g, item), k, w);
      assert CountAllowed(Star, k);
      RepeatLanguage(g, item, Star, w);
    }
  }

  lemma MaybeLanguage(g: Rules, item: Item)
    ensures OfItem(g, Repeat(item, Maybe)) == iset{[]} + OfItem(g, item)
  {
    forall w
      ensures w in OfItem(g, Repeat(item, Maybe)) <==> w == [] || w in OfItem(g, item)
    {
      var lang := OfItem(g, item);
      RepeatLanguage(g, item, Maybe, w);
      PowerOne(lang, w);
      assert CountAllowed(Maybe, 0) && CountAllowed(Maybe, 1);
      assert Power(lang, 0, w) <==> w == [];
      forall k: nat | CountAllowed(Maybe, k)
        ensures k == 0 || k == 1
      {
      }
    }
  }
}
