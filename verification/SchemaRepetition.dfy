/** Separated repetitions, as array schemas need them. */
module SchemaRepetition {
  import opened Wrappers
  import opened Decimals
  import opened Languages
  import opened GbnfSyntax
  import opened GbnfLexer
  import opened GbnfReader
  import opened GbnfMeaning
  import opened GbnfPrinter

  /** The operator for a plain repetition; None as `max` stands for the largest `int`, "no bound". */
  function Times(min: nat, max: Option<int>): Repetition {
    if min == 0 && max == Some(1) then Maybe
    else if min == 1 && max.None? then Plus
    else if min == 0 && max.None? then Star
    else if max.Some? then Between(min, max.value)
    else AtLeast(min)
  }

  function Less(max: Option<int>): Option<int> {
    if max.Some? then Some(max.value - 1) else None
  }

  /** An item, then any number of separated ones. */
  function List(item: Item, min: nat, max: Option<int>, separator: Sequence): Sequence {
    Snoc(Snoc(Empty, item), Repeat(Group(Only(Snoc(separator, item))), Times(min, Less(max))))
  }

  function BuildRepetition(item: Item, min: nat, max: Option<int>, separator: Sequence): Sequence {
    if separator.Empty? || (min == 0 && max == Some(1)) then Snoc(Empty, Repeat(item, Times(min, max)))
    else
      var result := List(item, if min == 0 then 0 else min - 1, max, separator);
      if min == 0 then Snoc(Empty, Repeat(Group(Only(result)), Maybe)) else result
  }

  ghost function SequenceLanguage(g: Rules, depth: nat, s: Sequence): iset<Word> {
    iset w | SequenceMatches(g, depth, s, w)
  }

  /** `w` is `k` words of `item` with a word of `separator` between any two. */
  ghost predicate Joined(item: iset<Word>, separator: iset<Word>, k: nat, w: Word) {
    if k == 0 then w == []
    else if k == 1 then w in item
    else exists i, j :: 0 <= i <= j <= |w| && Joined(item, separator, k - 1, w[..i]) && w[i..j] in separator && w[j..] in item
  }

  predicate InBounds(min: nat, max: Option<int>, k: nat) {
    min <= k && (max.Some? ==> k <= max.value)
  }

  /** The counts that are accepted: those in bounds, or `min` alone where `max` is below it. */
  predicate Counts(min: nat, max: Option<int>, k: nat) {
    if max.Some? && max.value < min then k == min else InBounds(min, max, k)
  }

  /** They are the ones in bounds exactly if the bounds are in order. */
  lemma CountsInBoundsIffOrdered(min: nat, max: Option<int>)
    ensures (forall k: nat :: Counts(min, max, k) <==> InBounds(min, max, k)) <==> (max.Some? ==> min <= max.value)
  {
    assert max.Some? && max.value < min ==> Counts(min, max, min) && !InBounds(min, max, min);
  }

  /** One word of `separator`, then one of `item`. */
  ghost function Then(separator: iset<Word>, item: iset<Word>): iset<Word> {
    iset w | exists j :: 0 <= j <= |w| && w[..j] in separator && w[j..] in item
  }

  lemma ThenFrom(item: iset<Word>, separator: iset<Word>, w: Word, a: nat, b: nat)
    requires a <= b <= |w| && w[a..b] in separator && w[b..] in item
    ensures w[a..] in Then(separator, item)
  {
    assert w[a..][..b - a] == w[a..b] && w[a..][b - a..] == w[b..];
  }

  lemma SliceAround(w: Word, i: nat, a: nat)
    requires i <= a <= |w|
    ensures w[..a][..i] == w[..i] && w[i..][..a - i] == w[..a][i..] && w[i..][a - i..] == w[a..]
  {
  }

  lemma {:induction false} JoinedToPower(item: iset<Word>, separator: iset<Word>, k: nat, w: Word) returns (i: nat)
    requires k > 0 && Joined(item, separator, k, w)
    ensures i <= |w| && w[..i] in item && Power(Then(separator, item), k - 1, w[i..])
    decreases k
  {
    if k == 1 {
      i := |w|;
      assert w[..|w|] == w && w[|w|..] == [];
    } else {
      var a, b :| 0 <= a <= b <= |w| && Joined(item, separator, k - 1, w[..a]) && w[a..b] in separator && w[b..] in item;
      i := JoinedToPower(item, separator, k - 1, w[..a]);
      ThenFrom(item, separator, w, a, b);
      SliceAround(w, i, a);
      PowerSnoc(Then(separator, item), k - 2, w[i..], a - i);
    }
  }

  lemma FromThen(item: iset<Word>, separator: iset<Word>, w: Word, a: nat) returns (b: nat)
    requires a <= |w| && w[a..] in Then(separator, item)
    ensures a <= b <= |w| && w[a..b] in separator && w[b..] in item
  {
    var j :| 0 <= j <= |w[a..]| && w[a..][..j] in separator && w[a..][j..] in item;
    b := a + j;
    assert w[a..][..j] == w[a..b] && w[a..][j..] == w[b..];
  }

  lemma {:induction false} PowerToJoined(item: iset<Word>, separator: iset<Word>, k: nat, w: Word, i: nat)
    requires k > 0 && i <= |w| && w[..i] in item && Power(Then(separator, item), k - 1, w[i..])
    ensures Joined(item, separator, k, w)
    decreases k
  {
    if k == 1 {
      assert w == w[..i];
    } else {
      var n := PowerUnsnoc(Then(separator, item), k - 1, w[i..]);
      var a := i + n;
      SliceAround(w, i, a);
      var b := FromThen(item, separator, w, a);
      PowerToJoined(item, separator, k - 1, w[..a], i);
    }
  }

  /** The group `( separator item )`. */
  lemma GroupIsThen(g: Rules, depth: nat, item: Item, separator: Sequence)
    ensures ItemLanguage(g, depth, Group(Only(Snoc(separator, item)))) ==
      Then(SequenceLanguage(g, depth, separator), ItemLanguage(g, depth, item))
  {
    forall w
      ensures w in ItemLanguage(g, depth, Group(Only(Snoc(separator, item)))) <==>
        w in Then(SequenceLanguage(g, depth, separator), ItemLanguage(g, depth, item))
    {
      SnocSplits(g, depth, separator, item, w);
      assert ItemMatches(g, depth, Group(Only(Snoc(separator, item))), w) <==> SequenceMatches(g, depth, Snoc(separator, item), w);
    }
  }

  lemma SnocSplits(g: Rules, depth: nat, init: Sequence, last: Item, w: Word)
    ensures SequenceMatches(g, depth, Snoc(init, last), w) <==>
      exists j :: 0 <= j <= |w| && w[..j] in SequenceLanguage(g, depth, init) && w[j..] in ItemLanguage(g, depth, last)
  {
    if SequenceMatches(g, depth, Snoc(init, last), w) {
      var j :| 0 <= j <= |w| && SequenceMatches(g, depth, init, w[..j]) && ItemMatches(g, depth, last, w[j..]);
      assert w[..j] in SequenceLanguage(g, depth, init) && w[j..] in ItemLanguage(g, depth, last);
    }
    forall j | 0 <= j <= |w| && w[..j] in SequenceLanguage(g, depth, init) && w[j..] in ItemLanguage(g, depth, last)
      ensures SequenceMatches(g, depth, Snoc(init, last), w)
    {
    }
  }

  lemma TimesCounts(min: nat, max: Option<int>, k: nat)
    requires max.Some? ==> max.value >= 0
    ensures CountAllowed(Times(min, max), k) <==> Counts(min, max, k)
  {
  }

  lemma TimesMatches(g: Rules, depth: nat, item: Item, min: nat, max: Option<int>, w: Word)
    requires max.Some? ==> max.value >= 0
    ensures ItemMatches(g, depth, Repeat(item, Times(min, max)), w) <==>
      exists k: nat :: Counts(min, max, k) && Power(ItemLanguage(g, depth, item), k, w)
  {
    forall k: nat
      ensures CountAllowed(Times(min, max), k) <==> Counts(min, max, k)
    {
      TimesCounts(min, max, k);
    }
  }

  lemma LastJoined(item: iset<Word>, separator: iset<Word>, k: nat, w: Word) returns (i: nat, j: nat)
    requires k > 1 && Joined(item, separator, k, w)
    ensures i <= j <= |w| && Joined(item, separator, k - 1, w[..i]) && w[i..j] in separator && w[j..] in item
  {
    i, j :| 0 <= i <= j <= |w| && Joined(item, separator, k - 1, w[..i]) && w[i..j] in separator && w[j..] in item;
  }

  lemma JoinedLast(item: iset<Word>, separator: iset<Word>, k: nat, w: Word, i: nat, j: nat)
    requires k > 1 && i <= j <= |w| && Joined(item, separator, k - 1, w[..i]) && w[i..j] in separator && w[j..] in item
    ensures Joined(item, separator, k, w)
  {
  }

  lemma {:induction false} UnseparatedToPower(item: iset<Word>, nothing: iset<Word>, k: nat, w: Word)
    requires nothing == iset{[]} && Joined(item, nothing, k, w)
    ensures Power(item, k, w)
    decreases k
  {
    if k == 1 {
      PowerOne(item, w);
    } else if k > 1 {
      var i, j := LastJoined(item, nothing, k, w);
      assert |w[i..j]| == 0;
      UnseparatedToPower(item, nothing, k - 1, w[..i]);
      PowerSnoc(item, k - 1, w, i);
    }
  }

  lemma {:induction false} PowerToUnseparated(item: iset<Word>, nothing: iset<Word>, k: nat, w: Word)
    requires nothing == iset{[]} && Power(item, k, w)
    ensures Joined(item, nothing, k, w)
    decreases k
  {
    if k == 1 {
      PowerOne(item, w);
    } else if k > 1 {
      var i := PowerUnsnoc(item, k, w);
      PowerToUnseparated(item, nothing, k - 1, w[..i]);
      assert w[i..i] == [];
      JoinedLast(item, nothing, k, w, i, i);
    }
  }

  lemma UnseparatedIsPower(item: iset<Word>, k: nat, w: Word)
    ensures Joined(item, iset{[]}, k, w) <==> Power(item, k, w)
  {
    var nothing: iset<Word> := iset{[]};
    if Joined(item, nothing, k, w) {
      UnseparatedToPower(item, nothing, k, w);
    }
    if Power(item, k, w) {
      PowerToUnseparated(item, nothing, k, w);
    }
  }

  ghost predicate IsList(item: iset<Word>, separator: iset<Word>, min: nat, max: Option<int>, k: nat, w: Word) {
    Counts(min, max, k) && Joined(item, separator, k, w)
  }

  /** The languages of the item and of the separator, at some depth. */
  ghost predicate Are(g: Rules, depth: nat, item: Item, separator: Sequence, one: iset<Word>, sep: iset<Word>) {
    one == ItemLanguage(g, depth, item) && sep == SequenceLanguage(g, depth, separator)
  }

  lemma SplitList(g: Rules, depth: nat, item: Item, more: Item, w: Word) returns (i: nat)
    requires SequenceMatches(g, depth, Snoc(Snoc(Empty, item), more), w)
    ensures i <= |w| && ItemMatches(g, depth, item, w[..i]) && ItemMatches(g, depth, more, w[i..])
  {
    i :| 0 <= i <= |w| && SequenceMatches(g, depth, Snoc(Empty, item), w[..i]) && ItemMatches(g, depth, more, w[i..]);
    OneItem(g, depth, item, w[..i]);
  }

  lemma JoinList(g: Rules, depth: nat, item: Item, more: Item, w: Word, i: nat)
    requires i <= |w| && ItemMatches(g, depth, item, w[..i]) && ItemMatches(g, depth, more, w[i..])
    ensures SequenceMatches(g, depth, Snoc(Snoc(Empty, item), more), w)
  {
    OneItem(g, depth, item, w[..i]);
  }

  lemma GroupTimes(g: Rules, depth: nat, item: Item, min: nat, max: Option<int>, separator: Sequence,
                   one: iset<Word>, sep: iset<Word>, w: Word)
    requires (max.Some? ==> max.value >= 0) && Are(g, depth, item, separator, one, sep)
    ensures ItemMatches(g, depth, Repeat(Group(Only(Snoc(separator, item))), Times(min, max)), w) <==>
      exists k: nat :: Counts(min, max, k) && Power(Then(sep, one), k, w)
  {
    GroupIsThen(g, depth, item, separator);
    TimesMatches(g, depth, Group(Only(Snoc(separator, item))), min, max, w);
  }

  lemma ListToJoined(g: Rules, depth: nat, item: Item, min: nat, max: Option<int>, separator: Sequence,
                     one: iset<Word>, sep: iset<Word>, w: Word) returns (k: nat)
    requires min >= 1 && (max.Some? ==> max.value >= 1) && Are(g, depth, item, separator, one, sep)
    requires SequenceMatches(g, depth, List(item, min - 1, max, separator), w)
    ensures IsList(one, sep, min, max, k, w)
  {
    var more := Repeat(Group(Only(Snoc(separator, item))), Times(min - 1, Less(max)));
    var i := SplitList(g, depth, item, more, w);
    var j := TimesOf(g, depth, item, min - 1, Less(max), separator, one, sep, w[i..]);
    k := j + 1;
    PowerToJoined(one, sep, k, w, i);
  }

  lemma TimesOf(g: Rules, depth: nat, item: Item, min: nat, max: Option<int>, separator: Sequence,
                one: iset<Word>, sep: iset<Word>, w: Word) returns (k: nat)
    requires (max.Some? ==> max.value >= 0) && Are(g, depth, item, separator, one, sep)
    requires ItemMatches(g, depth, Repeat(Group(Only(Snoc(separator, item))), Times(min, max)), w)
    ensures Counts(min, max, k) && Power(Then(sep, one), k, w)
  {
    GroupTimes(g, depth, item, min, max, separator, one, sep, w);
    k :| Counts(min, max, k) && Power(Then(sep, one), k, w);
  }

  lemma JoinedToList(g: Rules, depth: nat, item: Item, min: nat, max: Option<int>, separator: Sequence,
                     one: iset<Word>, sep: iset<Word>, k: nat, w: Word)
    requires min >= 1 && (max.Some? ==> max.value >= 1) && Are(g, depth, item, separator, one, sep)
    requires IsList(one, sep, min, max, k, w)
    ensures SequenceMatches(g, depth, List(item, min - 1, max, separator), w)
  {
    var more := Repeat(Group(Only(Snoc(separator, item))), Times(min - 1, Less(max)));
    var i := JoinedToPower(one, sep, k, w);
    assert Counts(min - 1, Less(max), k - 1);
    GroupTimes(g, depth, item, min - 1, Less(max), separator, one, sep, w[i..]);
    JoinList(g, depth, item, more, w, i);
  }

  /** The non-empty lists. */
  lemma NonEmptyList(g: Rules, depth: nat, item: Item, min: nat, max: Option<int>, separator: Sequence,
                     one: iset<Word>, sep: iset<Word>, w: Word)
    requires min >= 1 && (max.Some? ==> max.value >= 1) && Are(g, depth, item, separator, one, sep)
    ensures SequenceMatches(g, depth, List(item, min - 1, max, separator), w) <==>
      exists k: nat :: IsList(one, sep, min, max, k, w)
  {
    if SequenceMatches(g, depth, List(item, min - 1, max, separator), w) {
      var k := ListToJoined(g, depth, item, min, max, separator, one, sep, w);
    }
    forall k: nat | IsList(one, sep, min, max, k, w)
      ensures SequenceMatches(g, depth, List(item, min - 1, max, separator), w)
    {
      JoinedToList(g, depth, item, min, max, separator, one, sep, k, w);
    }
  }

  lemma MaybeMatches(g: Rules, depth: nat, item: Item, w: Word)
    ensures ItemMatches(g, depth, Repeat(item, Maybe), w) <==> w == [] || ItemMatches(g, depth, item, w)
  {
    TimesMatches(g, depth, item, 0, Some(1), w);
    var lang := ItemLanguage(g, depth, item);
    PowerOne(lang, w);
    if w == [] {
      assert Counts(0, Some(1), 0) && Power(lang, 0, w);
    }
    if ItemMatches(g, depth, item, w) {
      assert Counts(0, Some(1), 1) && Power(lang, 1, w);
    }
    forall k: nat | Counts(0, Some(1), k) && Power(lang, k, w)
      ensures w == [] || ItemMatches(g, depth, item, w)
    {
      assert k == 0 || k == 1;
    }
  }

  /** Exactly the lists of at least `min` and at most `max` items, joined by separators; of `min` items if `max` is less. */
  lemma RepetitionExact(g: Rules, depth: nat, item: Item, min: nat, max: Option<int>, separator: Sequence,
                        one: iset<Word>, sep: iset<Word>, w: Word)
    requires max.Some? ==> max.value >= 0 && (separator.Snoc? ==> max.value >= 1)
    requires Are(g, depth, item, separator, one, sep)
    ensures SequenceMatches(g, depth, BuildRepetition(item, min, max, separator), w) <==>
      exists k: nat :: IsList(one, sep, min, max, k, w)
  {
    if separator.Empty? {
      PlainExact(g, depth, item, min, max, one, sep, w);
    } else if min == 0 && max == Some(1) {
      OneItem(g, depth, Repeat(item, Maybe), w);
      MaybeMatches(g, depth, item, w);
      ZeroOrOne(one, sep, w);
    } else if min == 0 {
      OptionalList(g, depth, item, max, separator, one, sep, w);
    } else {
      NonEmptyList(g, depth, item, min, max, separator, one, sep, w);
    }
  }

  lemma PlainExact(g: Rules, depth: nat, item: Item, min: nat, max: Option<int>,
                   one: iset<Word>, sep: iset<Word>, w: Word)
    requires (max.Some? ==> max.value >= 0) && Are(g, depth, item, Empty, one, sep)
    ensures SequenceMatches(g, depth, Snoc(Empty, Repeat(item, Times(min, max))), w) <==>
      exists k: nat :: IsList(one, sep, min, max, k, w)
  {
    OneItem(g, depth, Repeat(item, Times(min, max)), w);
    TimesMatches(g, depth, item, min, max, w);
    assert sep == iset{[]};
    forall k: nat
      ensures IsList(one, sep, min, max, k, w) <==> Counts(min, max, k) && Power(one, k, w)
    {
      UnseparatedIsPower(one, k, w);
    }
  }

  lemma ZeroOrOne(item: iset<Word>, separator: iset<Word>, w: Word)
    ensures (exists k: nat :: IsList(item, separator, 0, Some(1), k, w)) <==> w == [] || w in item
  {
    assert IsList(item, separator, 0, Some(1), 0, w) <==> w == [];
    assert IsList(item, separator, 0, Some(1), 1, w) <==> w in item;
  }

  lemma OptionalList(g: Rules, depth: nat, item: Item, max: Option<int>, separator: Sequence,
                     one: iset<Word>, sep: iset<Word>, w: Word)
    requires (max.Some? ==> max.value >= 2) && separator.Snoc? && Are(g, depth, item, separator, one, sep)
    ensures SequenceMatches(g, depth, BuildRepetition(item, 0, max, separator), w) <==>
      exists k: nat :: IsList(one, sep, 0, max, k, w)
  {
    var inner := List(item, 0, max, separator);
    OneItem(g, depth, Repeat(Group(Only(inner)), Maybe), w);
    MaybeMatches(g, depth, Group(Only(inner)), w);
    assert ItemMatches(g, depth, Group(Only(inner)), w) <==> SequenceMatches(g, depth, inner, w);
    NonEmptyList(g, depth, item, 1, max, separator, one, sep, w);
    EmptyOrNot(one, sep, max, w);
  }

  lemma EmptyOrNot(item: iset<Word>, separator: iset<Word>, max: Option<int>, w: Word)
    requires max.Some? ==> max.value >= 2
    ensures (exists k: nat :: IsList(item, separator, 0, max, k, w)) <==>
      w == [] || exists k: nat :: IsList(item, separator, 1, max, k, w)
  {
    if w == [] {
      assert IsList(item, separator, 0, max, 0, w);
    }
    forall k: nat | IsList(item, separator, 1, max, k, w)
      ensures IsList(item, separator, 0, max, k, w)
    {
    }
    forall k: nat | IsList(item, separator, 0, max, k, w)
      ensures w == [] || IsList(item, separator, 1, max, k, w)
    {
    }
  }

  // ----- as text

  /** `build_repetition`, on strings. */
  function RepetitionText(itemRule: string, minItems: nat, maxItems: int, separatorRule: string): string
    decreases separatorRule != ""
  {
    var hasMax := maxItems != INT_MAX;
    if minItems == 0 && maxItems == 1 then itemRule + "?"
    else if separatorRule == "" then
      if minItems == 1 && !hasMax then itemRule + "+"
      else if minItems == 0 && !hasMax then itemRule + "*"
      else itemRule + "{" + Decimal(minItems) + "," + (if hasMax then IntText(maxItems) else "") + "}"
    else
      var result := itemRule + " " + RepetitionText("(" + separatorRule + " " + itemRule + ")", if minItems == 0 then 0 else minItems - 1,
                                                    if hasMax then maxItems - 1 else maxItems, "");
      if minItems == 0 then "(" + result + ")?" else result
  }

  function Max(maxItems: int): Option<int> {
    if maxItems == INT_MAX then None else Some(maxItems)
  }

  lemma OneShown(item: Item)
    requires PrintableItem(item)
    ensures PrintableSequence(Snoc(Empty, item)) && ShowSequence(Snoc(Empty, item)) == ShowItem(item)
  {
    assert "" + ShowItem(item) == ShowItem(item);
  }

  lemma GroupShown(s: Sequence)
    requires PrintableSequence(s)
    ensures PrintableItem(Group(Only(s))) && ShowItem(Group(Only(s))) == "(" + ShowSequence(s) + ")"
  {
  }

  lemma SnocShown(init: Sequence, last: Item)
    requires PrintableSequence(init) && init.Snoc? && PrintableItem(last)
    ensures PrintableSequence(Snoc(init, last)) && ShowSequence(Snoc(init, last)) == ShowSequence(init) + " " + ShowItem(last)
  {
  }

  lemma MaybeShown(item: Item)
    requires PrintableItem(item) && !Silent(item)
    ensures PrintableItem(Repeat(item, Maybe)) && ShowItem(Repeat(item, Maybe)) == ShowItem(item) + "?"
  {
  }

  lemma BracesText(i: string, m: string, n: string)
    ensures i + ("{" + m + "," + n + "}") == i + "{" + m + "," + n + "}"
    ensures i + ("{" + m + ",}") == i + "{" + m + "," + "" + "}"
  {
  }

  lemma Parens(a: string, b: string)
    ensures "(" + (a + " " + b) + ")" == "(" + a + " " + b + ")"
  {
  }

  lemma PlainText(item: Item, min: nat, max: int)
    requires PrintableItem(item) && !Silent(item) && min < INT_MAX && 0 <= max <= INT_MAX
    ensures PrintableItem(Repeat(item, Times(min, Max(max))))
    ensures ShowItem(Repeat(item, Times(min, Max(max)))) == RepetitionText(ShowItem(item), min, max, "")
  {
    assert ShowItem(Repeat(item, Times(min, Max(max)))) == ShowItem(item) + ShowOperator(Times(min, Max(max)));
    BracesText(ShowItem(item), Decimal(min), Decimal(max));
  }

  /** The string is the text of the syntax. */
  lemma TextShowsRepetition(item: Item, min: nat, max: int, separator: Sequence)
    requires PrintableItem(item) && !Silent(item) && PrintableSequence(separator)
    requires min < INT_MAX && 0 <= max <= INT_MAX && (separator.Snoc? ==> max >= 1 && ShowSequence(separator) != "")
    ensures PrintableSequence(BuildRepetition(item, min, Max(max), separator))
    ensures ShowSequence(BuildRepetition(item, min, Max(max), separator)) ==
      RepetitionText(ShowItem(item), min, max, ShowSequence(separator))
  {
    if separator.Empty? || (min == 0 && max == 1) {
      PlainText(item, min, max);
      OneShown(Repeat(item, Times(min, Max(max))));
    } else {
      var fewer := if min == 0 then 0 else min - 1;
      ListText(item, fewer, max, separator);
      if min == 0 {
        var list := List(item, fewer, Max(max), separator);
        GroupShown(list);
        MaybeShown(Group(Only(list)));
        OneShown(Repeat(Group(Only(list)), Maybe));
        assert ("(" + ShowSequence(list) + ")") + "?" == "(" + ShowSequence(list) + ")?";
      }
    }
  }

  lemma ListText(item: Item, min: nat, max: int, separator: Sequence)
    requires PrintableItem(item) && PrintableSequence(separator) && separator.Snoc?
    requires min < INT_MAX && 1 <= max <= INT_MAX
    ensures PrintableSequence(List(item, min, Max(max), separator))
    ensures ShowSequence(List(item, min, Max(max), separator)) ==
      ShowItem(item) + " " + RepetitionText("(" + ShowSequence(separator) + " " + ShowItem(item) + ")", min, if max == INT_MAX then max else max - 1, "")
  {
    var less := if max == INT_MAX then max else max - 1;
    var group := Group(Only(Snoc(separator, item)));
    SnocShown(separator, item);
    GroupShown(Snoc(separator, item));
    Parens(ShowSequence(separator), ShowItem(item));
    PlainText(group, min, less);
    OneShown(item);
    SnocShown(Snoc(Empty, item), Repeat(group, Times(min, Max(less))));
  }

  /** Neither digits nor the closing brace may begin with a minus. */
  lemma MinusFails(s: string, m: int, after: string, nested: bool)
    requires OpensWith(s, m, after) && At(after, 0) == ',' && At(after, 1) == '-'
    ensures Braces(s, nested).None?
  {
    SkipNothing(s[1..], nested);
    SkipNothing(after, nested);
    SkipNothing(after[1..], nested);
  }

  lemma NegativeBoundFails(m: nat, more: string, nested: bool)
    requires m < INT_LIMIT
    ensures Braces("{" + (Decimal(m) + (",-" + more)), nested).None?
  {
    OpenBrace(m, ",-" + more);
    MinusFails("{" + (Decimal(m) + (",-" + more)), m, ",-" + more, nested);
  }

  lemma OperatorFails(m: nat, more: string, nested: bool, acc: Sequence)
    requires m < INT_LIMIT
    ensures ReadSequence("{" + (Decimal(m) + (",-" + more)), nested, acc).None?
  {
    NegativeBoundFails(m, more, nested);
  }

  /** An item and then a group that is repeated so cannot be read. */
  lemma ZeroListFails(item: Item, group: Item, m: nat, more: string, nested: bool)
    requires PrintableItem(item) && group.Group? && PrintableItem(group) && m < INT_LIMIT
    ensures ReadSequence(ShowItem(item) + (" " + (ShowItem(group) + ("{" + (Decimal(m) + (",-" + more))))), nested, Empty).None?
  {
    var after := "{" + (Decimal(m) + (",-" + more));
    var shown := ShowItem(group) + after;
    ReadShownItem(item, " " + shown, nested, Empty);
    SkipOneBlank(shown, nested);
    ReadShownItem(group, after, nested, Snoc(Empty, item));
    SkipNothing(after, nested);
    OperatorFails(m, more, nested, Snoc(Snoc(Empty, item), group));
  }

  lemma GroupFails(content: string)
    requires ReadSequence(content, true, Empty).None? && SkipSpace(content, true) == content
    ensures ReadAlternatives("(" + content, false).None?
  {
    var s := "(" + content;
    assert s[1..] == content;
    assert ReadAlternatives(content, true).None?;
    assert ReadGroup(s, false).None?;
    assert ReadSequence(s, false, Empty).None?;
  }

  lemma RuleFails(name: string, body: string)
    requires PrintableName(name) && SkipSpace(body, true) == body && ReadAlternatives(body, false).None?
    ensures Read(name + (" ::= " + body)).None?
  {
    var sign := "::= " + body;
    var text := name + (" " + sign);
    assert " ::= " + body == " " + sign;
    NameLength(name, " " + sign);
    NameCut(name, " " + sign);
    SkipOneBlank(sign, false);
    assert sign[3..] == " " + body;
    BlankBefore(body, true);
    assert text[0] == name[0];
    SkipNothing(text, true);
    assert ReadRule(text).None?;
  }

  lemma NoneAllowedFails(name: string, item: Item, min: nat, max: int, separator: Sequence)
    requires PrintableName(name) && PrintableItem(item) && PrintableSequence(separator) && separator.Snoc? && ShowSequence(separator) != ""
    requires max <= 0 && min < INT_MAX
    ensures Read(name + (" ::= " + (RepetitionText(ShowItem(item), min, max, ShowSequence(separator)) + "\n"))).None?
  {
    var group := Group(Only(Snoc(separator, item)));
    SnocShown(separator, item);
    GroupShown(Snoc(separator, item));
    ZeroText(ShowItem(item), ShowSequence(separator), ShowItem(group), min, max);
    ContentFails(name, item, group, Fewer(min), Decimal(1 - max) + ("}" + Close(min)), min == 0);
  }

  /** The list as a rule's body, in parentheses if it is optional. */
  lemma ContentFails(name: string, item: Item, group: Item, m: nat, more: string, optional: bool)
    requires PrintableName(name) && PrintableItem(item) && group.Group? && PrintableItem(group) && m < INT_LIMIT
    ensures var content := ShowItem(item) + (" " + (ShowItem(group) + ("{" + (Decimal(m) + (",-" + more)))));
      Read(name + (" ::= " + ((if optional then "(" else "") + content))).None?
  {
    var after := " " + (ShowItem(group) + ("{" + (Decimal(m) + (",-" + more))));
    var content := ShowItem(item) + after;
    ZeroListFails(item, group, m, more, optional);
    ItemStart(item, after);
    SkipNothing(content, true);
    if optional {
      GroupFails(content);
      SkipNothing("(" + content, true);
      RuleFails(name, "(" + content);
    } else {
      assert "" + content == content;
      RuleFails(name, content);
    }
  }

  /** Read back, the string is the repetition exactly if at least one item is allowed; otherwise it is an error. */
  lemma ReadsBackIffSomeAllowed(name: string, item: Item, min: nat, max: int, separator: Sequence)
    requires PrintableName(name) && PrintableItem(item) && !Silent(item)
    requires PrintableSequence(separator) && separator.Snoc? && ShowSequence(separator) != ""
    requires max <= INT_MAX && min < INT_MAX
    ensures Read(name + (" ::= " + (RepetitionText(ShowItem(item), min, max, ShowSequence(separator)) + "\n"))) ==
      if max >= 1 then Some([Rule(name, Only(BuildRepetition(item, min, Max(max), separator)))]) else None
  {
    if max >= 1 {
      TextShowsRepetition(item, min, max, separator);
      OneRuleReads(name, BuildRepetition(item, min, Max(max), separator));
    } else {
      NoneAllowedFails(name, item, min, max, separator);
    }
  }

  lemma OneRuleReads(name: string, s: Sequence)
    requires PrintableName(name) && PrintableSequence(s) && s.Snoc?
    ensures Read(name + (" ::= " + (ShowSequence(s) + "\n"))) == Some([Rule(name, Only(s))])
  {
    RoundTrip([Rule(name, Only(s))]);
    OneRuleShown(Rule(name, Only(s)));
    LineText(name, ShowSequence(s));
  }

  lemma OneRuleShown(rule: Rule)
    requires PrintableRule(rule)
    ensures ShowGrammar([rule]) == ShowRule(rule)
  {
    assert [rule][1..] == [];
    assert ShowRule(rule) + "" == ShowRule(rule);
  }

  lemma LineText(name: string, body: string)
    ensures name + " ::= " + body + "\n" == name + (" ::= " + (body + "\n"))
  {
    Assoc(name, " ::= ", body + "\n");
    Assoc(name + " ::= ", body, "\n");
  }

  function Fewer(min: nat): nat {
    if min == 0 then 0 else min - 1
  }

  /** What follows the braces. */
  function Close(min: nat): string {
    if min == 0 then ")?\n" else "\n"
  }

  /** The string when no item is allowed: the inner upper bound is negative. */
  lemma ZeroText(item: string, separator: string, group: string, min: nat, max: int)
    requires separator != "" && max <= 0 && group == "(" + (separator + " " + item) + ")"
    ensures RepetitionText(item, min, max, separator) + "\n" ==
      (if min == 0 then "(" else "") +
      (item + (" " + (group + ("{" + (Decimal(Fewer(min)) + (",-" + (Decimal(1 - max) + ("}" + Close(min)))))))))
  {
    Parens(separator, item);
    var braces := "{" + Decimal(Fewer(min)) + "," + ("-" + Decimal(1 - max)) + "}";
    BracesBehind(group, Decimal(Fewer(min)), Decimal(1 - max));
    assert RepetitionText(group, Fewer(min), max - 1, "") == group + braces;
    assert RepetitionText(item, min, max, separator) == if min == 0 then "(" + (item + " " + (group + braces)) + ")?" else item + " " + (group + braces);
    NegativeText(Decimal(Fewer(min)), Decimal(1 - max), Close(min));
    CloseText(item, group, braces, min);
  }

  lemma BracesBehind(inner: string, m: string, n: string)
    ensures inner + "{" + m + "," + ("-" + n) + "}" == inner + ("{" + m + "," + ("-" + n) + "}")
  {
  }

  lemma NegativeText(m: string, n: string, rest: string)
    ensures "{" + m + "," + ("-" + n) + "}" + rest == "{" + (m + (",-" + (n + ("}" + rest))))
  {
    assert "," + "-" == ",-";
  }

  lemma CloseText(item: string, group: string, braces: string, min: nat)
    ensures (if min == 0 then "(" + (item + " " + (group + braces)) + ")?" else item + " " + (group + braces)) + "\n" ==
      (if min == 0 then "(" else "") + (item + (" " + (group + (braces + Close(min)))))
  {
    assert ")?" + "\n" == ")?\n";
  }

  /** An array schema whose `maxItems` is 0. */
  lemma NoItemsIsUnreadable(name: string)
    requires PrintableName(name)
    ensures Read(name + (" ::= " + (RepetitionText("value", 0, 0, "\",\" space") + "\n"))).None?
  {
    var separator := Snoc(Snoc(Empty, Literal([44])), Ref("space"));
    assert LiteralChar(44) == ",";
    assert ShowLiteral([44]) == "," by {
      assert [44][1..] == [];
    }
    assert ShowSequence(separator) == "\",\" space";
    ReadsBackIffSomeAllowed(name, Ref("value"), 0, 0, separator);
  }
}
