/** Integer bounds in the wrong order, which the converter does not refuse: when the emitted rule accepts something. */
module SchemaReversed {
  import opened Wrappers
  import opened GbnfSyntax
  import opened GbnfMeaning
  import opened SchemaIntegers

  // ----- the expression for any two texts

  /** `uniform_range` where `to` may be shorter than `from`. */
  function AnyRange(from: Word, to: Word): Sequence
    decreases |from|, 2
  {
    var i := CommonPrefix(from, to);
    var prefix := if i > 0 then Snoc(Empty, Literal(from[..i])) else Empty;
    if i < |from| && i < |to| then Snoc(prefix, AnyDiverging(from[i..], to[i..])) else prefix
  }

  function AnyDiverging(from: Word, to: Word): Item
    requires from != [] && to != []
    decreases |from|, 1
  {
    if |from| == 1 then CharClass(false, [Span(from[0], to[0])]) else Group(AnyCases(from, to))
  }

  function AnyCases(from: Word, to: Word): Alternatives
    requires |from| > 1 && to != []
    decreases |from|, 0
  {
    var n, f, t := |from| - 1, from[0], to[0];
    var full := to[1..] == Nines(n);
    var last := if full || t == 0 then t else t - 1;
    Cases(from[1..] == Zeros(n), f + 1 < t, full,
          Middle(f, if t > 0 then t - 1 else 0, n), Lower(f, from[1..]), Middle(f + 1, last, n), AnyUpper(t, to[1..], n))
  }

  function AnyUpper(t: nat, rest: Word, n: nat): Sequence
    decreases n, 3
  {
    Append(Snoc(Empty, DigitRange(t, t)), AnyRange(Zeros(n), rest))
  }

  lemma {:induction false} AnyIsUniform(from: Word, to: Word)
    requires |from| == |to|
    ensures AnyRange(from, to) == UniformRange(from, to)
    decreases |from|
  {
    var i := CommonPrefix(from, to);
    if i < |from| {
      var a, b := from[i..], to[i..];
      if |a| > 1 {
        AnyIsUniform(Zeros(|a| - 1), b[1..]);
        assert AnyUpper(b[0], b[1..], |a| - 1) == Upper(b[0], b[1..]);
        assert AnyCases(a, b) == DivergingCases(a, b);
      }
      assert AnyDiverging(a, b) == Diverging(a, b);
    }
  }

  function AnyByLength(acc: Option<Alternatives>, from: Word, to: Word): Alternatives
    decreases |to| - |from|
  {
    if |from| >= |to| then AddAlternative(acc, AnyRange(from, to))
    else AnyByLength(Some(AddAlternative(acc, UniformRange(from, Nines(|from|)))), [ZERO + 1] + Zeros(|from|), to)
  }

  /** The text of an integer as code points. */
  function IntCodes(v: int): Word {
    if v < 0 then [MINUS] + Numeral(-v) else Numeral(v)
  }

  /** `_build_min_max_int` with both bounds, in any order, neither a sentinel. */
  function AnyMinMax(min: int, max: int): Alternatives {
    if min < 0 && max < 0 then Only(Negated(AnyByLength(None, IntCodes(-max), IntCodes(-min))))
    else if min < 0 then AnyByLength(Some(Only(Negated(AnyByLength(None, IntCodes(0), IntCodes(-min))))), IntCodes(0), IntCodes(max))
    else AnyByLength(None, IntCodes(min), IntCodes(max))
  }

  lemma {:induction false} AnyByLengthIsByLength(acc: Option<Alternatives>, from: Word, to: Word)
    requires |from| <= |to|
    ensures AnyByLength(acc, from, to) == ByLength(acc, from, to)
    decreases |to| - |from|
  {
    if |from| == |to| {
      AnyIsUniform(from, to);
    } else {
      AnyByLengthIsByLength(Some(AddAlternative(acc, UniformRange(from, Nines(|from|)))), [ZERO + 1] + Zeros(|from|), to);
    }
  }

  /** With the bounds in order it is the rule whose language is known. */
  lemma OrderedIsMinMax(min: int, max: int)
    requires min <= max
    ensures AnyMinMax(min, max) == MinMax(min, max)
  {
    if max < 0 {
      NumeralLength(-max, -min);
      AnyByLengthIsByLength(None, Numeral(-max), Numeral(-min));
    } else if min < 0 {
      var acc := Some(Only(Negated(NonNegative(None, 0, -min))));
      NumeralLength(0, -min);
      NumeralLength(0, max);
      AnyByLengthIsByLength(None, Numeral(0), Numeral(-min));
      AnyByLengthIsByLength(acc, Numeral(0), Numeral(max));
    } else {
      NumeralLength(min, max);
      AnyByLengthIsByLength(None, Numeral(min), Numeral(max));
    }
  }

  // ----- what is accepted

  ghost predicate SomeSequence(g: Rules, s: Sequence) {
    exists w: Word :: SequenceMatches(g, 0, s, w)
  }

  ghost predicate SomeAlternative(g: Rules, alts: Alternatives) {
    exists w: Word :: AlternativesMatch(g, 0, alts, w)
  }

  lemma UpperAccepts(g: Rules, t: nat, rest: Word, n: nat, w: Word)
    requires SequenceMatches(g, 0, AnyRange(Zeros(n), rest), w)
    ensures SequenceMatches(g, 0, AnyUpper(t, rest, n), [t] + w)
  {
    DigitThen(g, 0, t, t, AnyRange(Zeros(n), rest), [t] + w);
    assert ([t] + w)[1..] == w;
  }

  /** The upper case is written down unless the middle one covers it. */
  lemma CasesAccept(g: Rules, from: Word, to: Word, w: Word)
    requires |from| > 1 && to != [] && !(from[0] + 1 < to[0] && to[1..] == Nines(|from| - 1))
    requires SequenceMatches(g, 0, AnyRange(Zeros(|from| - 1), to[1..]), w)
    ensures AlternativesMatch(g, 0, AnyCases(from, to), [to[0]] + w)
  {
    var n, f, t := |from| - 1, from[0], to[0];
    var full := to[1..] == Nines(n);
    var last := if full || t == 0 then t else t - 1;
    UpperAccepts(g, t, to[1..], n, w);
    CasesMatch(g, 0, from[1..] == Zeros(n), f + 1 < t, full,
               Middle(f, if t > 0 then t - 1 else 0, n), Lower(f, from[1..]), Middle(f + 1, last, n), AnyUpper(t, to[1..], n), [t] + w);
  }

  lemma PrefixAccepts(g: Rules, p: Word, item: Item, w: Word)
    requires ItemMatches(g, 0, item, w)
    ensures SequenceMatches(g, 0, Snoc(if p != [] then Snoc(Empty, Literal(p)) else Empty, item), p + w)
  {
    PrefixThen(g, 0, p, item, p + w);
    assert (p + w)[..|p|] == p && (p + w)[|p|..] == w;
  }

  /** Texts that differ before the last character of the longer one: something is accepted. */
  lemma DifferingAccepts(g: Rules, from: Word, to: Word, a: Word, b: Word, w: Word)
    requires var i := CommonPrefix(from, to); a == from[i..] && b == to[i..]
    requires |a| > 1 && b != [] && !(a[0] + 1 < b[0] && b[1..] == Nines(|a| - 1))
    requires SequenceMatches(g, 0, AnyRange(Zeros(|a| - 1), b[1..]), w)
    ensures SomeSequence(g, AnyRange(from, to))
  {
    var i := CommonPrefix(from, to);
    CasesAccept(g, a, b, w);
    assert ItemMatches(g, 0, AnyDiverging(a, b), [b[0]] + w);
    PrefixAccepts(g, from[..i], AnyDiverging(a, b), [b[0]] + w);
    RangeIs(from, to, a, b);
  }

  lemma RangeIs(from: Word, to: Word, a: Word, b: Word)
    requires var i := CommonPrefix(from, to); a == from[i..] && b == to[i..]
    requires a != [] && b != []
    ensures var p := from[..CommonPrefix(from, to)];
      AnyRange(from, to) == Snoc(if p != [] then Snoc(Empty, Literal(p)) else Empty, AnyDiverging(a, b))
  {
  }

  /** A lower bound with more digits always leaves something. */
  lemma {:induction false} LongerAccepts(g: Rules, from: Word, to: Word)
    requires |from| > |to|
    ensures SomeSequence(g, AnyRange(from, to))
    decreases |from|
  {
    var i := CommonPrefix(from, to);
    if i == |to| {
      if i == 0 {
        assert SequenceMatches(g, 0, AnyRange(from, to), []);
      } else {
        OneItem(g, 0, Literal(from[..i]), from[..i]);
        assert SequenceMatches(g, 0, AnyRange(from, to), from[..i]);
      }
    } else {
      var a, b := from[i..], to[i..];
      var n, rest := |a| - 1, b[1..];
      LongerAccepts(g, Zeros(n), rest);
      var w: Word :| SequenceMatches(g, 0, AnyRange(Zeros(n), rest), w);
      assert |rest| < |Nines(n)|;
      DifferingAccepts(g, from, to, a, b, w);
    }
  }

  lemma OrderedAccepts(g: Rules, from: Word, to: Word)
    requires |from| == |to| && DigitWord(from) && DigitWord(to) && LexLe(from, to)
    ensures SequenceMatches(g, 0, AnyRange(from, to), to)
  {
    AnyIsUniform(from, to);
    LexReflexive(to);
    UniformRangeExact(g, 0, from, to, to);
  }

  /** Of two texts of one length, the larger one first, something is left exactly if they differ before the last character. */
  lemma ReversedAccepts(g: Rules, from: Word, to: Word)
    requires |from| == |to| && CommonPrefix(from, to) < |from| && DigitWord(to[1..])
    requires from[CommonPrefix(from, to)] > to[CommonPrefix(from, to)]
    ensures SomeSequence(g, AnyRange(from, to)) <==> CommonPrefix(from, to) + 1 < |from|
  {
    var i := CommonPrefix(from, to);
    var a, b := from[i..], to[i..];
    if |a| > 1 {
      assert b[1..] == to[1..][i..];
      ZerosNines(b[1..]);
      OrderedAccepts(g, Zeros(|a| - 1), b[1..]);
      DifferingAccepts(g, from, to, a, b, b[1..]);
    } else {
      LastDigitRejects(g, from, to, a, b);
    }
  }

  lemma LastDigitRejects(g: Rules, from: Word, to: Word, a: Word, b: Word)
    requires var i := CommonPrefix(from, to); a == from[i..] && b == to[i..]
    requires |a| == |b| == 1 && a[0] > b[0]
    ensures !SomeSequence(g, AnyRange(from, to))
  {
    var p := from[..CommonPrefix(from, to)];
    RangeIs(from, to, a, b);
    forall w: Word
      ensures !SequenceMatches(g, 0, AnyRange(from, to), w)
    {
      PrefixThen(g, 0, p, AnyDiverging(a, b), w);
      if |p| + 1 == |w| {
        OnePart(Span(a[0], b[0]), w[|p|..][0]);
      }
    }
  }

  // ----- numbers

  lemma {:induction false} CommonPrefixSnoc(p: Word, q: Word, x: nat, y: nat)
    requires |p| == |q| && p + [x] != q + [y]
    ensures CommonPrefix(p + [x], q + [y]) <= |p|
    ensures CommonPrefix(p + [x], q + [y]) < |p| <==> p != q
    decreases |p|
  {
    if p == [] {
      assert p + [x] == [x] && q + [y] == [y];
    } else if p[0] == q[0] {
      assert p == [p[0]] + p[1..] && q == [q[0]] + q[1..];
      assert (p + [x])[1..] == p[1..] + [x] && (q + [y])[1..] == q[1..] + [y];
      CommonPrefixSnoc(p[1..], q[1..], x, y);
    }
  }

  lemma NumeralInjective(m: nat, k: nat)
    ensures Numeral(m) == Numeral(k) <==> m == k
  {
    NumeralIsCanonical(m);
    NumeralIsCanonical(k);
  }

  /** Different numbers with as many digits share all but the last digit exactly if they share the tens. */
  lemma PrefixTenths(m: nat, k: nat)
    requires |Numeral(m)| == |Numeral(k)| && m != k
    ensures CommonPrefix(Numeral(m), Numeral(k)) < |Numeral(m)|
    ensures CommonPrefix(Numeral(m), Numeral(k)) + 1 < |Numeral(m)| <==> m / 10 != k / 10
  {
    NumeralInjective(m, k);
    if m >= 10 && k >= 10 {
      NumeralSnoc(m);
      NumeralSnoc(k);
      NumeralInjective(m / 10, k / 10);
      CommonPrefixSnoc(Numeral(m / 10), Numeral(k / 10), ZERO + m % 10, ZERO + k % 10);
    }
  }

  lemma {:induction false} LargerAtPrefix(a: Word, b: Word)
    requires |a| == |b| && LexLe(b, a) && CommonPrefix(a, b) < |a|
    ensures a[CommonPrefix(a, b)] > b[CommonPrefix(a, b)]
    decreases |a|
  {
    if a[0] == b[0] {
      LargerAtPrefix(a[1..], b[1..]);
    }
  }

  lemma TenthsAndLength(m: nat, k: nat)
    requires m / 10 == k / 10
    ensures |Numeral(m)| == |Numeral(k)|
  {
  }

  lemma OneRange(g: Rules, from: Word, to: Word)
    requires |from| >= |to|
    ensures SomeAlternative(g, AnyByLength(None, from, to)) <==> SomeSequence(g, AnyRange(from, to))
  {
    assert forall w: Word :: AlternativesMatch(g, 0, AnyByLength(None, from, to), w) <==> SequenceMatches(g, 0, AnyRange(from, to), w);
  }

  lemma ReversedNumbers(g: Rules, m: nat, k: nat)
    requires m > k
    ensures SomeAlternative(g, AnyByLength(None, Numeral(m), Numeral(k))) <==> m / 10 != k / 10
  {
    var from, to := Numeral(m), Numeral(k);
    NumeralLength(k, m);
    OneRange(g, from, to);
    if |from| > |to| {
      LongerAccepts(g, from, to);
      if m / 10 == k / 10 {
        TenthsAndLength(m, k);
      }
    } else {
      NumeralIsCanonical(m);
      NumeralIsCanonical(k);
      LexIsNumeric(to, from, 0);
      PrefixTenths(m, k);
      LargerAtPrefix(from, to);
      ReversedAccepts(g, from, to);
    }
  }

  lemma {:induction false} AlternativeStays(g: Rules, acc: Alternatives, from: Word, to: Word, w: Word)
    requires AlternativesMatch(g, 0, acc, w)
    ensures AlternativesMatch(g, 0, AnyByLength(Some(acc), from, to), w)
    decreases |to| - |from|
  {
    if |from| < |to| {
      AlternativeStays(g, Or(acc, UniformRange(from, Nines(|from|))), [ZERO + 1] + Zeros(|from|), to, w);
    }
  }

  /** A lower bound that is not negative and a negative upper one. */
  lemma MixedAccepts(g: Rules, min: nat, max: int)
    requires max < 0
    ensures SomeAlternative(g, AnyByLength(None, Numeral(min), IntCodes(max)))
  {
    var from, to := Numeral(min), IntCodes(max);
    NumeralIsCanonical(min);
    NumeralIsCanonical(-max);
    assert to[1..] == Numeral(-max) && from[0] > to[0];
    if |from| < |to| {
      var first := UniformRange(from, Nines(|from|));
      ZerosNines(from);
      OrderedAccepts(g, from, Nines(|from|));
      AnyIsUniform(from, Nines(|from|));
      assert AlternativesMatch(g, 0, Only(first), Nines(|from|));
      AlternativeStays(g, Only(first), [ZERO + 1] + Zeros(|from|), to, Nines(|from|));
    } else {
      OneRange(g, from, to);
      if |from| > |to| {
        LongerAccepts(g, from, to);
      } else {
        assert CommonPrefix(from, to) == 0;
        ReversedAccepts(g, from, to);
      }
    }
  }

  function Tens(v: int): nat {
    (if v < 0 then -v else v) / 10
  }

  /** A lower bound above the upper one: something is accepted exactly if the signs or the digits before the last differ. */
  lemma ReversedBoundsAccept(g: Rules, min: int, max: int)
    requires min > max
    ensures SomeAlternative(g, AnyMinMax(min, max)) <==> (min >= 0 && max < 0) || Tens(min) != Tens(max)
  {
    if min < 0 {
      var inner := AnyByLength(None, Numeral(-max), Numeral(-min));
      ReversedNumbers(g, -max, -min);
      if SomeAlternative(g, inner) {
        var w: Word :| AlternativesMatch(g, 0, inner, w);
        NegatedMatches(g, 0, inner, [MINUS] + w);
        assert ([MINUS] + w)[1..] == w;
        assert AlternativesMatch(g, 0, AnyMinMax(min, max), [MINUS] + w);
      }
      if SomeAlternative(g, AnyMinMax(min, max)) {
        var w: Word :| AlternativesMatch(g, 0, AnyMinMax(min, max), w);
        NegatedMatches(g, 0, inner, w);
      }
    } else if max < 0 {
      MixedAccepts(g, min, max);
    } else {
      ReversedNumbers(g, min, max);
    }
  }

  lemma TwoNumerals()
    ensures Numeral(20) == [50, 48] && Numeral(10) == [49, 48]
  {
    NumeralSnoc(20);
    NumeralSnoc(10);
    assert Numeral(2) == [50] && Numeral(1) == [49];
  }

  lemma TwoDigitsAccept(g: Rules, from: Word, to: Word)
    requires from == [50, 48] && to == [49, 48]
    ensures SequenceMatches(g, 0, AnyRange(from, to), [49, 48])
  {
    assert from[0..] == from && to[0..] == to && CommonPrefix(from, to) == 0;
    TwoDigitCases(g, from, to);
    RangeIs(from, to, from, to);
    OneItem(g, 0, AnyDiverging(from, to), [49, 48]);
  }

  lemma TwoDigitCases(g: Rules, from: Word, to: Word)
    requires from == [50, 48] && to == [49, 48]
    ensures ItemMatches(g, 0, AnyDiverging(from, to), [49, 48])
  {
    var rest: Word := [48];
    assert from[1..] == rest && to[1..] == rest && [49] + rest == [49, 48];
    OrderedAccepts(g, Zeros(1), rest);
    CasesAccept(g, from, to, rest);
  }

  /** The rule for at least 20 and at most 10 accepts `10`. */
  lemma TwentyToTenAcceptsTen(g: Rules)
    ensures AlternativesMatch(g, 0, AnyMinMax(20, 10), [49, 48])
  {
    TwoNumerals();
    TwoDigitsAccept(g, Numeral(20), Numeral(10));
  }
}
