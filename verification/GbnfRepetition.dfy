/** When a postfix operator means what the grammar guide promises, and when it does not. */
module GbnfRepetition {
  import opened Wrappers
  import opened Decimals
  import opened Languages
  import opened GbnfSyntax
  import opened GbnfLexer
  import opened GbnfReader
  import opened GbnfMeaning
  import opened GbnfPrinter
  import opened GbnfParser
  import opened GbnfClosed

  /** The number of copies the guide promises for an operator. */
  predicate Promised(op: Repetition, k: nat) {
    match op
    case Star => true
    case Plus => 1 <= k
    case Maybe => k <= 1
    case Exactly(m) => k == m
    case AtLeast(m) => m <= k
    case Between(m, n) => m <= k <= n
  }

  /** Bounds in order, and not negative. */
  predicate Ordered(op: Repetition) {
    match op
    case Exactly(m) => 0 <= m
    case AtLeast(m) => 0 <= m
    case Between(m, n) => 0 <= m <= n
    case _ => true
  }

  /** On the numbers the parser holds, the rewrite keeps the promise for exactly the ordered bounds. */
  lemma OrderedIffPromised(op: Repetition)
    ensures (forall k: nat :: CountAllowed(op, k) <==> Promised(op, k)) <==> Ordered(op)
  {
    if !Ordered(op) {
      var k := Fewest(op);
      assert CountAllowed(op, k);
      if op == AtLeast(op.Min()) {
        assert Promised(op, 0) && !CountAllowed(op, 0);
      } else if op.Between? && Promised(op, k) {
        assert Promised(op, 0) && !CountAllowed(op, 0);
      }
    }
  }

  // ----- bounds as they are written

  /** The numerals between the braces. */
  datatype Braced = Exact(m: string) | From(m: string) | Range(m: string, n: string)

  predicate Numeral(s: string) {
    s != "" && AllDigits(s)
  }

  /** Numerals that `stoul` can hold. */
  predicate Readable(b: Braced) {
    && Numeral(b.m) && Value(b.m) < ULONG_LIMIT
    && (b.Range? ==> Numeral(b.n) && Value(b.n) < ULONG_LIMIT)
  }

  function BracedText(b: Braced): string {
    match b
    case Exact(m) => "{" + m + "}"
    case From(m) => "{" + m + ",}"
    case Range(m, n) => "{" + m + "," + n + "}"
  }

  /** The operator the guide describes. */
  function Written(b: Braced): Repetition
    requires Readable(b)
  {
    match b
    case Exact(m) => Exactly(Value(m))
    case From(m) => AtLeast(Value(m))
    case Range(m, n) => Between(Value(m), Value(n))
  }

  /** The operator the parser holds: each bound stored in an `int`. */
  function Stored(b: Braced): Repetition
    requires Readable(b)
  {
    match b
    case Exact(m) => Exactly(ToInt(Value(m)))
    case From(m) => AtLeast(ToInt(Value(m)))
    case Range(m, n) => Between(ToInt(Value(m)), ToInt(Value(n)))
  }

  lemma NumeralReads(m: string, after: string)
    requires Numeral(m) && Value(m) < ULONG_LIMIT && !IsDigit(At(after, 0))
    ensures Bound(m + after) == Some((ToInt(Value(m)), after)) && IsDigitAt(m + after)
  {
    var s, n := m + after, |m|;
    assert s[..n] == m && s[n..] == after;
    assert n < |s| ==> s[n] == At(after, 0);
    PrefixLengthIs(s, IsDigit, n);
  }

  lemma OpensWithNumeral(m: string, after: string)
    requires Numeral(m) && Value(m) < ULONG_LIMIT && !IsDigit(At(after, 0))
    ensures OpensWith("{" + (m + after), ToInt(Value(m)), after)
  {
    FirstAndRest('{', m + after);
    NumeralReads(m, after);
  }

  /** What stands between the braces is read as the stored operator. */
  lemma BracedReads(b: Braced, rest: string, nested: bool)
    requires Readable(b)
    ensures Operator(BracedText(b) + rest, nested) == Some((Stored(b), SkipSpace(rest, nested)))
  {
    match b
    case Exact(m) =>
      var after := "}" + rest;
      assert BracedText(b) + rest == "{" + (m + after);
      FirstAndRest('}', rest);
      OpensWithNumeral(m, after);
      BracesExactly("{" + (m + after), ToInt(Value(m)), after, nested);
    case From(m) =>
      var after := ",}" + rest;
      assert BracedText(b) + rest == "{" + (m + after);
      assert after[2..] == rest;
      OpensWithNumeral(m, after);
      BracesAtLeast("{" + (m + after), ToInt(Value(m)), after, nested);
    case Range(m, n) =>
      RangeReads(m, n, rest, nested);
  }

  lemma RangeReads(m: string, n: string, rest: string, nested: bool)
    requires Readable(Range(m, n))
    ensures Operator(BracedText(Range(m, n)) + rest, nested) == Some((Stored(Range(m, n)), SkipSpace(rest, nested)))
  {
    var last := "}" + rest;
    var after := "," + (n + last);
    BetweenText(m, n, rest);
    FirstAndRest('}', rest);
    FirstAndRest(',', n + last);
    NumeralReads(n, last);
    OpensWithNumeral(m, after);
    BracesBetween("{" + (m + after), ToInt(Value(m)), after, ToInt(Value(n)), last, nested);
  }

  /** Every bound fits an `int`, and the two are in order. */
  predicate FitsInOrder(b: Braced)
    requires Readable(b)
  {
    match b
    case Exact(m) => Value(m) < INT_LIMIT
    case From(m) => Value(m) < INT_LIMIT
    case Range(m, n) => Value(m) <= Value(n) < INT_LIMIT
  }

  lemma FittingIsKept(v: nat)
    requires v < INT_LIMIT
    ensures ToInt(v) == v
  {
  }

  /** A bound that does not fit is stored as a smaller number. */
  lemma TooLargeShrinks(v: nat)
    requires INT_LIMIT <= v
    ensures ToInt(v) < INT_LIMIT <= v
  {
  }

  ghost predicate KeepsPromise(b: Braced)
    requires Readable(b)
  {
    forall k: nat :: CountAllowed(Stored(b), k) <==> Promised(Written(b), k)
  }

  /** The operator that is read allows exactly the written counts if and only if its bounds fit and are in order. */
  lemma WrittenPromiseIffFitsInOrder(b: Braced)
    requires Readable(b)
    ensures KeepsPromise(b) <==> FitsInOrder(b)
  {
    if Value(b.m) >= INT_LIMIT {
      LargeFirstBreaks(b);
    } else if b.Range? && Value(b.n) >= INT_LIMIT {
      FittingIsKept(Value(b.m));
      LargeSecondBreaks(b);
    } else {
      FittingIsKept(Value(b.m));
      if b.Range? {
        FittingIsKept(Value(b.n));
      }
      assert Stored(b) == Written(b);
      OrderedIffPromised(Written(b));
    }
  }

  lemma LargeFirstBreaks(b: Braced)
    requires Readable(b) && Value(b.m) >= INT_LIMIT
    ensures !KeepsPromise(b)
  {
    TooLargeShrinks(Value(b.m));
    var k := Fewest(Stored(b));
    assert k < Value(b.m);
    assert CountAllowed(Stored(b), k) && !Promised(Written(b), k);
  }

  lemma LargeSecondBreaks(b: Braced)
    requires Readable(b) && b.Range? && Value(b.m) < INT_LIMIT <= Value(b.n) && ToInt(Value(b.m)) == Value(b.m)
    ensures !KeepsPromise(b)
  {
    var n := Value(b.n);
    TooLargeShrinks(n);
    if ToInt(n) < 0 {
      assert CountAllowed(Stored(b), n + 1) && !Promised(Written(b), n + 1);
    } else {
      assert Promised(Written(b), n) && !CountAllowed(Stored(b), n);
    }
  }

  /** A numeral for 2^32 + `c` is read as `c`: `{4294967297}` means one copy, `{4294967296}` none. */
  lemma HugeCountWraps(m: string, c: nat, rest: string, nested: bool)
    requires c < INT_LIMIT && Numeral(m) && Value(m) == 0x1_0000_0000 + c
    ensures Operator(BracedText(Exact(m)) + rest, nested) == Some((Exactly(c), SkipSpace(rest, nested)))
    ensures !KeepsPromise(Exact(m))
  {
    var b := Exact(m);
    WrapsAround(Value(m), c);
    assert Stored(b) == Exactly(c);
    BracedReads(b, rest, nested);
    WrittenPromiseIffFitsInOrder(b);
    assert !FitsInOrder(b);
  }

  lemma WrapsAround(v: nat, c: nat)
    requires c < INT_LIMIT && v == 0x1_0000_0000 + c
    ensures ToInt(v) == c
  {
    assert v + 0x8000_0000 == 1 * 0x1_0000_0000 + (c + 0x8000_0000);
  }

  function Thrice(): Grammar {
    [Rule("root", Only(Snoc(Empty, Repeat(Literal([97]), Between(3, 2)))))]
  }

  lemma ThriceAccepts()
    ensures ItemMatches(Bodies(Thrice()), 1, Ref("root"), [97, 97, 97])
  {
    var g := Bodies(Thrice());
    var word: Word := [97, 97, 97];
    var item := Repeat(Literal([97]), Between(3, 2));
    assert Thrice()[..0] == [] && g == map["root" := Only(Snoc(Empty, item))];
    PowerAaa(ItemLanguage(g, 0, Literal([97])));
    assert CountAllowed(item.op, 3) && ItemMatches(g, 0, item, word);
    assert word[..0] == [] && word[0..] == word;
    assert SequenceMatches(g, 0, Snoc(Empty, item), word);
  }

  /** `"a"{3,2}` promises nothing at all, yet its rules generate "aaa". */
  lemma ReversedBoundsStillMatch()
    ensures !exists k: nat :: Promised(Between(3, 2), k)
    ensures "root" in Compile(ShowGrammar(Thrice())).ids
    ensures Generated(Compile(ShowGrammar(Thrice())), Compile(ShowGrammar(Thrice())).ids["root"], [97, 97, 97])
  {
    ThriceAccepts();
    ThriceIsPrintable();
    PrintedGrammarCompiles(Thrice(), "root", [97, 97, 97]);
  }

  lemma ThriceIsPrintable()
    ensures PrintableGrammar(Thrice()) && DefinesItsNames(Thrice()) && "root" in Bodies(Thrice())
  {
    assert Thrice()[..0] == [];
  }

  lemma PowerAaa(lang: iset<Word>)
    requires [97] in lang
    ensures Power(lang, 3, [97, 97, 97])
  {
    PowerOne(lang, [97]);
    assert [97] + [97] == [97, 97] && [97, 97] + [97] == [97, 97, 97];
    PowerAdd(lang, 1, 1, [97], [97]);
    assert Power(lang, 2, [97, 97]);
    PowerAdd(lang, 2, 1, [97, 97], [97]);
  }
}
