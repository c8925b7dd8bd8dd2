/** The grammar for an integer with a lower and an upper bound, as syntax and as emitted text. */
module SchemaIntegers {
  import opened Wrappers
  import opened Decimals
  import opened Languages
  import opened GbnfSyntax
  import opened GbnfMeaning

  const ZERO: nat := 48
  const NINE: nat := 57

  predicate DigitWord(w: Word) {
    forall i :: 0 <= i < |w| ==> ZERO <= w[i] <= NINE
  }

  function Same(c: nat, n: nat): (w: Word)
    ensures |w| == n && forall i :: 0 <= i < n ==> w[i] == c
  {
    seq(n, i => c)
  }

  function Zeros(n: nat): (w: Word)
    ensures |w| == n && DigitWord(w)
  {
    Same(ZERO, n)
  }

  function Nines(n: nat): (w: Word)
    ensures |w| == n && DigitWord(w)
  {
    Same(NINE, n)
  }

  function CommonPrefix(a: Word, b: Word): (n: nat)
    ensures n <= |a| && n <= |b| && a[..n] == b[..n]
    ensures n < |a| && n < |b| ==> a[n] != b[n]
  {
    if a != [] && b != [] && a[0] == b[0] then 1 + CommonPrefix(a[1..], b[1..]) else 0
  }

  // ----- the expression

  function DigitRange(from: nat, to: nat): Item {
    CharClass(false, [if from == to then Single(from) else Span(from, to)])
  }

  function MoreDigits(n: nat): Item {
    if n == 1 then DigitRange(ZERO, NINE) else Repeat(DigitRange(ZERO, NINE), Exactly(n))
  }

  function Pair(a: Item, b: Item): Sequence {
    Snoc(Snoc(Empty, a), b)
  }

  /** Words as long as `from` and `to`, from `from` up to `to`. */
  function UniformRange(from: Word, to: Word): Sequence
    requires |from| == |to|
    decreases |from|, 2
  {
    var i := CommonPrefix(from, to);
    var prefix := if i > 0 then Snoc(Empty, Literal(from[..i])) else Empty;
    if i < |from| then Snoc(prefix, Diverging(from[i..], to[i..])) else prefix
  }

  function Diverging(from: Word, to: Word): Item
    requires |from| == |to| > 0
    decreases |from|, 1
  {
    if |from| == 1 then CharClass(false, [Span(from[0], to[0])]) else Group(DivergingCases(from, to))
  }

  /** The first digit on the lower bound, then at least the rest of it. */
  function Lower(f: nat, rest: Word): Sequence
    decreases |rest|, 3
  {
    Pair(CharClass(false, [Single(f)]), Group(Only(UniformRange(rest, Nines(|rest|)))))
  }

  /** The first digit strictly inside, then any digits. */
  function Middle(from: nat, to: nat, n: nat): Sequence {
    Pair(DigitRange(from, to), MoreDigits(n))
  }

  /** The first digit on the upper bound, then at most the rest of it. */
  function Upper(t: nat, rest: Word): Sequence
    decreases |rest|, 3
  {
    Append(Snoc(Empty, DigitRange(t, t)), UniformRange(Zeros(|rest|), rest))
  }

  /** The cases that are written down, given which of them coincide or are empty. */
  function Cases(fromZeros: bool, gap: bool, full: bool, below: Sequence, lower: Sequence, middle: Sequence, upper: Sequence): Alternatives {
    if fromZeros then Or(Only(below), upper)
    else if !gap then Or(Only(lower), upper)
    else if full then Or(Only(lower), middle)
    else Or(Or(Only(lower), middle), upper)
  }

  function DivergingCases(from: Word, to: Word): Alternatives
    requires |from| == |to| > 1
    decreases |from|, 0
  {
    var n, f, t := |from| - 1, from[0], to[0];
    var full := to[1..] == Nines(n);
    var last := if full || t == 0 then t else t - 1;
    Cases(from[1..] == Zeros(n), f + 1 < t, full,
          Middle(f, if t > 0 then t - 1 else 0, n), Lower(f, from[1..]), Middle(f + 1, last, n), Upper(t, to[1..]))
  }

  function AddAlternative(acc: Option<Alternatives>, s: Sequence): Alternatives {
    if acc.None? then Only(s) else Or(acc.value, s)
  }

  /** One alternative for each number of digits. */
  function ByLength(acc: Option<Alternatives>, from: Word, to: Word): Alternatives
    requires |from| <= |to|
    decreases |to| - |from|
  {
    if |from| == |to| then AddAlternative(acc, UniformRange(from, to))
    else ByLength(Some(AddAlternative(acc, UniformRange(from, Nines(|from|)))), [ZERO + 1] + Zeros(|from|), to)
  }

  function Numeral(n: nat): Word {
    Codes(Decimal(n))
  }

  lemma {:induction false} NumeralLength(m: nat, n: nat)
    requires m <= n
    ensures |Numeral(m)| <= |Numeral(n)|
  {
    if n >= 10 && m >= 10 {
      NumeralLength(m / 10, n / 10);
    }
  }

  function NonNegative(acc: Option<Alternatives>, min: nat, max: nat): Alternatives
    requires min <= max
  {
    NumeralLength(min, max);
    ByLength(acc, Numeral(min), Numeral(max))
  }

  const MINUS: nat := 45

  function Negated(alts: Alternatives): Sequence {
    Pair(Literal([MINUS]), Group(alts))
  }

  function MinMax(min: int, max: int): Alternatives
    requires min <= max
  {
    if max < 0 then Only(Negated(NonNegative(None, -max, -min)))
    else if min < 0 then NonNegative(Some(Only(Negated(NonNegative(None, 0, -min)))), 0, max)
    else NonNegative(None, min, max)
  }

  // ----- its language

  predicate LexLe(a: Word, b: Word)
    requires |a| == |b|
  {
    a == [] || a[0] < b[0] || (a[0] == b[0] && LexLe(a[1..], b[1..]))
  }

  predicate InRange(from: Word, w: Word, to: Word)
    requires |from| == |to|
  {
    |w| == |from| && DigitWord(w) && LexLe(from, w) && LexLe(w, to)
  }

  lemma {:induction false} ZerosNines(w: Word)
    requires DigitWord(w)
    ensures LexLe(Zeros(|w|), w) && LexLe(w, Nines(|w|))
    decreases |w|
  {
    if w != [] {
      ZerosNines(w[1..]);
      assert Zeros(|w|)[1..] == Zeros(|w| - 1) && Nines(|w|)[1..] == Nines(|w| - 1);
    }
  }

  lemma {:induction false} LexReflexive(w: Word)
    ensures LexLe(w, w)
  {
    if w != [] {
      LexReflexive(w[1..]);
    }
  }

  lemma {:induction false} LexAntisymmetric(a: Word, b: Word)
    requires |a| == |b| && LexLe(a, b) && LexLe(b, a)
    ensures a == b
  {
    if a != [] {
      LexAntisymmetric(a[1..], b[1..]);
      assert a == [a[0]] + a[1..] && b == [b[0]] + b[1..];
    }
  }

  /** A shared prefix does not matter for the order. */
  lemma {:induction false} LexPrefix(p: Word, a: Word, b: Word)
    requires |a| == |b|
    ensures LexLe(p + a, p + b) <==> LexLe(a, b)
  {
    if p == [] {
      assert p + a == a && p + b == b;
    } else {
      LexPrefix(p[1..], a, b);
      assert (p + a)[1..] == p[1..] + a && (p + b)[1..] == p[1..] + b;
    }
  }

  lemma DigitRangeMatches(g: Rules, depth: nat, from: nat, to: nat, w: Word)
    ensures ItemMatches(g, depth, DigitRange(from, to), w) <==> |w| == 1 && from <= w[0] <= to
  {
    if |w| == 1 {
      OnePart(if from == to then Single(from) else Span(from, to), w[0]);
    }
  }

  lemma OnePart(part: Part, c: nat)
    ensures AnyPartMatches([part], c) <==> PartMatches(part, c)
  {
    assert [part][0] == part;
  }

  lemma {:induction false} AppendMatches(g: Rules, depth: nat, a: Sequence, b: Sequence, w: Word)
    ensures SequenceMatches(g, depth, Append(a, b), w) <==>
      exists i :: 0 <= i <= |w| && SequenceMatches(g, depth, a, w[..i]) && SequenceMatches(g, depth, b, w[i..])
  {
    if SequenceMatches(g, depth, Append(a, b), w) {
      var i := AppendSplit(g, depth, a, b, w);
    }
    if i :| 0 <= i <= |w| && SequenceMatches(g, depth, a, w[..i]) && SequenceMatches(g, depth, b, w[i..]) {
      AppendJoin(g, depth, a, b, w, i);
    }
  }

  lemma {:induction false} AppendSplit(g: Rules, depth: nat, a: Sequence, b: Sequence, w: Word) returns (i: nat)
    requires SequenceMatches(g, depth, Append(a, b), w)
    ensures i <= |w| && SequenceMatches(g, depth, a, w[..i]) && SequenceMatches(g, depth, b, w[i..])
    decreases b
  {
    if b.Empty? {
      i := |w|;
      assert w[..i] == w;
    } else {
      var j :| 0 <= j <= |w| && SequenceMatches(g, depth, Append(a, b.init), w[..j]) && ItemMatches(g, depth, b.last, w[j..]);
      i := AppendSplit(g, depth, a, b.init, w[..j]);
      assert w[..j][..i] == w[..i] && w[..j][i..] == w[i..][..j - i] && w[i..][j - i..] == w[j..];
    }
  }

  lemma {:induction false} AppendJoin(g: Rules, depth: nat, a: Sequence, b: Sequence, w: Word, i: nat)
    requires i <= |w| && SequenceMatches(g, depth, a, w[..i]) && SequenceMatches(g, depth, b, w[i..])
    ensures SequenceMatches(g, depth, Append(a, b), w)
    decreases b
  {
    if b.Empty? {
      assert w[..i] == w;
    } else {
      var j :| 0 <= j <= |w[i..]| && SequenceMatches(g, depth, b.init, w[i..][..j]) && ItemMatches(g, depth, b.last, w[i..][j..]);
      var u := w[..i + j];
      assert u[..i] == w[..i] && u[i..] == w[i..][..j] && w[i..][j..] == w[i + j..];
      AppendJoin(g, depth, a, b.init, u, i);
    }
  }

  /** A digit class in front of anything. */
  lemma DigitThen(g: Rules, depth: nat, from: nat, to: nat, rest: Sequence, w: Word)
    ensures SequenceMatches(g, depth, Append(Snoc(Empty, DigitRange(from, to)), rest), w) <==>
      w != [] && from <= w[0] <= to && SequenceMatches(g, depth, rest, w[1..])
  {
    AppendMatches(g, depth, Snoc(Empty, DigitRange(from, to)), rest, w);
    forall i | 0 <= i <= |w|
      ensures SequenceMatches(g, depth, Snoc(Empty, DigitRange(from, to)), w[..i]) <==> i == 1 && from <= w[0] <= to
    {
      OneItem(g, depth, DigitRange(from, to), w[..i]);
      DigitRangeMatches(g, depth, from, to, w[..i]);
    }
  }

  lemma DigitThenItem(g: Rules, depth: nat, from: nat, to: nat, item: Item, w: Word)
    ensures SequenceMatches(g, depth, Pair(DigitRange(from, to), item), w) <==>
      w != [] && from <= w[0] <= to && ItemMatches(g, depth, item, w[1..])
  {
    assert Pair(DigitRange(from, to), item) == Append(Snoc(Empty, DigitRange(from, to)), Snoc(Empty, item));
    DigitThen(g, depth, from, to, Snoc(Empty, item), w);
    if w != [] {
      OneItem(g, depth, item, w[1..]);
    }
  }

  lemma {:induction false} DigitPower(g: Rules, depth: nat, n: nat, w: Word)
    ensures Power(ItemLanguage(g, depth, DigitRange(ZERO, NINE)), n, w) <==> |w| == n && DigitWord(w)
    decreases n
  {
    var lang := ItemLanguage(g, depth, DigitRange(ZERO, NINE));
    if n > 0 {
      forall i | 0 <= i <= |w|
        ensures w[..i] in lang <==> i == 1 && ZERO <= w[0] <= NINE
      {
        DigitRangeMatches(g, depth, ZERO, NINE, w[..i]);
      }
      if w != [] {
        DigitPower(g, depth, n - 1, w[1..]);
        assert w == [w[0]] + w[1..];
      }
    }
  }

  lemma MoreDigitsMatches(g: Rules, depth: nat, n: nat, w: Word)
    requires n > 0
    ensures ItemMatches(g, depth, MoreDigits(n), w) <==> |w| == n && DigitWord(w)
  {
    DigitPower(g, depth, n, w);
    if n == 1 {
      DigitRangeMatches(g, depth, ZERO, NINE, w);
    } else {
      var body, op := DigitRange(ZERO, NINE), Exactly(n);
      assert forall k: nat :: CountAllowed(op, k) <==> k == n;
      assert ItemMatches(g, depth, Repeat(body, op), w) <==> Power(ItemLanguage(g, depth, body), n, w);
    }
  }

  /** `uniform_range` is exact: it accepts the digit strings of the same length between its bounds. */
  lemma {:induction false} UniformRangeExact(g: Rules, depth: nat, from: Word, to: Word, w: Word)
    requires |from| == |to| && DigitWord(from) && DigitWord(to) && LexLe(from, to)
    ensures SequenceMatches(g, depth, UniformRange(from, to), w) <==> InRange(from, w, to)
    decreases |from|, 2
  {
    var i := CommonPrefix(from, to);
    var p, a, b := from[..i], from[i..], to[i..];
    assert from == p + a && to == p + b;
    if i == |from| {
      OnlyWord(from, w);
      if i > 0 {
        OneItem(g, depth, Literal(p), w);
      }
    } else {
      LexPrefix(p, a, b);
      DigitSplit(p, a);
      DigitSplit(p, b);
      PrefixThen(g, depth, p, Diverging(a, b), w);
      InRangeBehindPrefix(p, a, b, w);
      if i <= |w| && w[..i] == p {
        DivergingExact(g, depth, a, b, w[i..]);
      }
    }
  }

  lemma InRangeBehindPrefix(p: Word, a: Word, b: Word, w: Word)
    requires |a| == |b| && DigitWord(p)
    ensures InRange(p + a, w, p + b) <==> |p| <= |w| && w[..|p|] == p && InRange(a, w[|p|..], b)
  {
    if |p| <= |w| && w[..|p|] == p {
      var v := w[|p|..];
      assert w == p + v;
      DigitSplit(p, v);
      if |w| == |p| + |a| {
        LexPrefix(p, a, v);
        LexPrefix(p, v, b);
      }
    } else if InRange(p + a, w, p + b) {
      SharedPrefix(p, a, w, b);
    }
  }

  lemma DigitSplit(p: Word, v: Word)
    requires DigitWord(p)
    ensures DigitWord(p + v) <==> DigitWord(v)
  {
    assert forall i :: 0 <= i < |v| ==> (p + v)[|p| + i] == v[i];
  }

  lemma OnlyWord(from: Word, w: Word)
    requires DigitWord(from)
    ensures InRange(from, w, from) <==> w == from
  {
    LexReflexive(from);
    if InRange(from, w, from) {
      LexAntisymmetric(from, w);
    }
  }

  /** What lies between two words with a common prefix has that prefix. */
  lemma {:induction false} SharedPrefix(p: Word, a: Word, w: Word, b: Word)
    requires |a| == |b| && |w| == |p| + |a| && LexLe(p + a, w) && LexLe(w, p + b)
    ensures w[..|p|] == p
    decreases |p|
  {
    if p != [] {
      assert (p + a)[1..] == p[1..] + a && (p + b)[1..] == p[1..] + b;
      assert w[0] == p[0];
      SharedPrefix(p[1..], a, w[1..], b);
      assert w[..|p|] == [w[0]] + w[1..][..|p| - 1] && p == [p[0]] + p[1..];
    }
  }

  lemma PrefixThen(g: Rules, depth: nat, p: Word, item: Item, w: Word)
    ensures var prefix := if p != [] then Snoc(Empty, Literal(p)) else Empty;
      SequenceMatches(g, depth, Snoc(prefix, item), w) <==>
      |p| <= |w| && w[..|p|] == p && ItemMatches(g, depth, item, w[|p|..])
  {
    var prefix := if p != [] then Snoc(Empty, Literal(p)) else Empty;
    forall i | 0 <= i <= |w|
      ensures SequenceMatches(g, depth, prefix, w[..i]) <==> w[..i] == p
    {
      if p != [] {
        OneItem(g, depth, Literal(p), w[..i]);
      }
    }
    if SequenceMatches(g, depth, Snoc(prefix, item), w) {
      var i :| 0 <= i <= |w| && SequenceMatches(g, depth, prefix, w[..i]) && ItemMatches(g, depth, item, w[i..]);
      assert i == |p|;
    }
  }

  lemma {:induction false} DivergingExact(g: Rules, depth: nat, from: Word, to: Word, w: Word)
    requires |from| == |to| > 0 && DigitWord(from) && DigitWord(to) && from[0] < to[0]
    ensures ItemMatches(g, depth, Diverging(from, to), w) <==> InRange(from, w, to)
    decreases |from|, 1
  {
    if |from| == 1 {
      if |w| == 1 {
        OnePart(Span(from[0], to[0]), w[0]);
        assert from[1..] == [] && w[1..] == [] && to[1..] == [];
        if DigitWord(w) {
          InRangeByHead(from, w, to);
        }
      }
    } else {
      DivergingCasesExact(g, depth, from, to, w);
    }
  }

  lemma {:induction false} DivergingCasesExact(g: Rules, depth: nat, from: Word, to: Word, w: Word)
    requires |from| == |to| > 1 && DigitWord(from) && DigitWord(to) && from[0] < to[0]
    ensures AlternativesMatch(g, depth, DivergingCases(from, to), w) <==> InRange(from, w, to)
    decreases |from|, 0
  {
    var n, f, t := |from| - 1, from[0], to[0];
    var full := to[1..] == Nines(n);
    var last := if full then t else t - 1;
    CasesMatch(g, depth, from[1..] == Zeros(n), f + 1 < t, full,
               Middle(f, t - 1, n), Lower(f, from[1..]), Middle(f + 1, last, n), Upper(t, to[1..]), w);
    UpperCase(g, depth, t, to[1..], w);
    LowerCase(g, depth, f, from[1..], w);
    MiddleCase(g, depth, f, t - 1, n, w);
    MiddleCase(g, depth, f + 1, last, n, w);
    if |w| == |from| && DigitWord(w) {
      InRangeByCases(from, w, to);
    }
  }

  /** The cases cover the range exactly. */
  lemma InRangeByCases(from: Word, w: Word, to: Word)
    requires |from| == |to| == |w| > 1 && DigitWord(from) && DigitWord(to) && DigitWord(w) && from[0] < to[0]
    ensures var n, f, t := |from| - 1, from[0], to[0];
      var fromZeros, full := from[1..] == Zeros(n), to[1..] == Nines(n);
      InRange(from, w, to) <==>
        || (if fromZeros then f <= w[0] <= t - 1 else w[0] == f && LexLe(from[1..], w[1..]))
        || (!fromZeros && f + 1 < t && f + 1 <= w[0] <= if full then t else t - 1)
        || (!(!fromZeros && f + 1 < t && full) && w[0] == t && LexLe(w[1..], to[1..]))
  {
    InRangeByHead(from, w, to);
    ZerosNines(w[1..]);
  }

  lemma CasesMatch(g: Rules, depth: nat, fromZeros: bool, gap: bool, full: bool,
                   below: Sequence, lower: Sequence, middle: Sequence, upper: Sequence, w: Word)
    ensures AlternativesMatch(g, depth, Cases(fromZeros, gap, full, below, lower, middle, upper), w) <==>
      || (if fromZeros then SequenceMatches(g, depth, below, w) else SequenceMatches(g, depth, lower, w))
      || (!fromZeros && gap && SequenceMatches(g, depth, middle, w))
      || (!(!fromZeros && gap && full) && SequenceMatches(g, depth, upper, w))
  {
    assert AlternativesMatch(g, depth, Or(Only(lower), middle), w) <==>
      SequenceMatches(g, depth, lower, w) || SequenceMatches(g, depth, middle, w);
  }

  /** The order is decided by the first digit, or by the rest when it is on a bound. */
  lemma InRangeByHead(from: Word, w: Word, to: Word)
    requires |from| == |to| == |w| > 0 && DigitWord(w) && from[0] < to[0]
    ensures InRange(from, w, to) <==>
      (w[0] == from[0] && LexLe(from[1..], w[1..])) || from[0] < w[0] < to[0] || (w[0] == to[0] && LexLe(w[1..], to[1..]))
  {
  }

  lemma MiddleCase(g: Rules, depth: nat, from: nat, to: nat, n: nat, w: Word)
    requires n > 0 && ZERO <= from && to <= NINE
    ensures SequenceMatches(g, depth, Middle(from, to, n), w) <==>
      |w| == n + 1 && DigitWord(w) && from <= w[0] <= to
  {
    DigitThenItem(g, depth, from, to, MoreDigits(n), w);
    if w != [] {
      MoreDigitsMatches(g, depth, n, w[1..]);
      HeadAndTail(w);
    }
  }

  lemma HeadAndTail(w: Word)
    requires w != []
    ensures DigitWord(w) <==> ZERO <= w[0] <= NINE && DigitWord(w[1..])
  {
    assert w == [w[0]] + w[1..];
  }

  lemma {:induction false} UpperCase(g: Rules, depth: nat, t: nat, rest: Word, w: Word)
    requires DigitWord(rest) && ZERO <= t <= NINE
    ensures SequenceMatches(g, depth, Upper(t, rest), w) <==>
      |w| == |rest| + 1 && DigitWord(w) && w[0] == t && LexLe(w[1..], rest)
    decreases |rest|, 3
  {
    DigitThen(g, depth, t, t, UniformRange(Zeros(|rest|), rest), w);
    ZerosNines(rest);
    if w != [] {
      UniformRangeExact(g, depth, Zeros(|rest|), rest, w[1..]);
      HeadAndTail(w);
      if DigitWord(w) && |w| == |rest| + 1 {
        ZerosNines(w[1..]);
      }
    }
  }

  lemma {:induction false} LowerCase(g: Rules, depth: nat, f: nat, rest: Word, w: Word)
    requires DigitWord(rest) && ZERO <= f <= NINE
    ensures SequenceMatches(g, depth, Lower(f, rest), w) <==>
      |w| == |rest| + 1 && DigitWord(w) && w[0] == f && LexLe(rest, w[1..])
    decreases |rest|, 3
  {
    assert CharClass(false, [Single(f)]) == DigitRange(f, f);
    DigitThenItem(g, depth, f, f, Group(Only(UniformRange(rest, Nines(|rest|)))), w);
    ZerosNines(rest);
    if w != [] {
      UniformRangeExact(g, depth, rest, Nines(|rest|), w[1..]);
      HeadAndTail(w);
      if DigitWord(w) && |w| == |rest| + 1 {
        ZerosNines(w[1..]);
      }
    }
  }

  // ----- numbers

  /** The value of a digit word after `acc`. */
  function Horner(w: Word, acc: nat): nat
    requires DigitWord(w)
  {
    if w == [] then acc else Horner(w[1..], 10 * acc + (w[0] - ZERO))
  }

  lemma {:induction false} HornerSmaller(a: Word, b: Word, m: nat, n: nat)
    requires |a| == |b| && DigitWord(a) && DigitWord(b) && m < n
    ensures Horner(a, m) < Horner(b, n)
    decreases |a|
  {
    if a != [] {
      HornerSmaller(a[1..], b[1..], 10 * m + (a[0] - ZERO), 10 * n + (b[0] - ZERO));
    }
  }

  /** On words of one length, the order of the digits is the order of the numbers. */
  lemma {:induction false} LexIsNumeric(a: Word, b: Word, acc: nat)
    requires |a| == |b| && DigitWord(a) && DigitWord(b)
    ensures LexLe(a, b) <==> Horner(a, acc) <= Horner(b, acc)
    decreases |a|
  {
    if a != [] {
      var m, n := 10 * acc + (a[0] - ZERO), 10 * acc + (b[0] - ZERO);
      if m < n {
        HornerSmaller(a[1..], b[1..], m, n);
      } else if m > n {
        HornerSmaller(b[1..], a[1..], n, m);
      } else {
        LexIsNumeric(a[1..], b[1..], m);
      }
    }
  }

  lemma {:induction false} HornerSnoc(w: Word, d: nat, acc: nat)
    requires DigitWord(w) && ZERO <= d <= NINE
    ensures DigitWord(w + [d]) && Horner(w + [d], acc) == 10 * Horner(w, acc) + (d - ZERO)
    decreases |w|
  {
    if w != [] {
      HornerSnoc(w[1..], d, 10 * acc + (w[0] - ZERO));
      assert (w + [d])[1..] == w[1..] + [d];
    }
  }

  /** Nonempty, and without a leading zero unless it is "0" itself. */
  predicate Canonical(w: Word) {
    w != [] && DigitWord(w) && (|w| > 1 ==> w[0] != ZERO)
  }

  lemma NumeralSnoc(n: nat)
    requires n >= 10
    ensures Numeral(n) == Numeral(n / 10) + [ZERO + n % 10]
  {
  }

  lemma {:induction false} NumeralIsCanonical(n: nat)
    ensures Canonical(Numeral(n)) && Horner(Numeral(n), 0) == n && (n > 0 ==> Numeral(n)[0] != ZERO)
  {
    if n >= 10 {
      NumeralIsCanonical(n / 10);
      NumeralSnoc(n);
      HornerSnoc(Numeral(n / 10), ZERO + n % 10, 0);
    } else {
      assert Numeral(n) == [ZERO + n];
      assert Numeral(n)[1..] == [];
    }
  }

  lemma {:induction false} CanonicalIsNumeral(w: Word)
    requires Canonical(w)
    ensures w == Numeral(Horner(w, 0))
    ensures w[0] != ZERO ==> Horner(w, 0) > 0
    decreases |w|
  {
    var init, d := w[..|w| - 1], w[|w| - 1];
    assert w == init + [d];
    HornerSnoc(init, d, 0);
    if init == [] {
      assert Numeral(d - ZERO) == [d];
    } else {
      CanonicalIsNumeral(init);
      NumeralSnoc(Horner(w, 0));
    }
  }

  /** A longer number without leading zeros is a larger one. */
  lemma {:induction false} ShorterIsSmaller(a: Word, b: Word)
    requires Canonical(a) && Canonical(b) && |a| < |b|
    ensures Horner(a, 0) < Horner(b, 0)
    decreases |b|
  {
    var k := |b| - |a|;
    var head, tail := b[..k], b[k..];
    assert b == head + tail;
    HornerConcat(head, tail, 0);
    assert Canonical(head);
    CanonicalIsNumeral(head);
    HornerSmaller(a, tail, 0, Horner(head, 0));
  }

  lemma {:induction false} HornerConcat(a: Word, b: Word, acc: nat)
    requires DigitWord(a) && DigitWord(b)
    ensures DigitWord(a + b) && Horner(a + b, acc) == Horner(b, Horner(a, acc))
    decreases |a|
  {
    if a == [] {
      assert a + b == b;
    } else {
      HornerConcat(a[1..], b, 10 * acc + (a[0] - ZERO));
      assert (a + b)[1..] == a[1..] + b;
    }
  }

  /** What one alternative per number of digits accepts. */
  predicate Accepted(from: Word, w: Word, to: Word)
    requires |from| <= |to|
    decreases |to| - |from|
  {
    if |from| == |to| then InRange(from, w, to)
    else InRange(from, w, Nines(|from|)) || Accepted([ZERO + 1] + Zeros(|from|), w, to)
  }

  lemma AddAlternativeMatches(g: Rules, depth: nat, acc: Option<Alternatives>, s: Sequence, w: Word)
    ensures AlternativesMatch(g, depth, AddAlternative(acc, s), w) <==>
      (acc.Some? && AlternativesMatch(g, depth, acc.value, w)) || SequenceMatches(g, depth, s, w)
  {
  }

  lemma {:induction false} ByLengthMatches(g: Rules, depth: nat, acc: Option<Alternatives>, from: Word, to: Word, w: Word)
    requires |from| <= |to| && DigitWord(from) && DigitWord(to) && (|from| == |to| ==> LexLe(from, to))
    requires |from| < |to| ==> Canonical(to) && from != []
    ensures AlternativesMatch(g, depth, ByLength(acc, from, to), w) <==>
      (acc.Some? && AlternativesMatch(g, depth, acc.value, w)) || Accepted(from, w, to)
    decreases |to| - |from|
  {
    if |from| == |to| {
      UniformRangeExact(g, depth, from, to, w);
      AddAlternativeMatches(g, depth, acc, UniformRange(from, to), w);
    } else {
      ZerosNines(from);
      UniformRangeExact(g, depth, from, Nines(|from|), w);
      var s := UniformRange(from, Nines(|from|));
      AddAlternativeMatches(g, depth, acc, s, w);
      if |from| + 1 == |to| {
        PowerIsLeast(to);
      }
      ByLengthMatches(g, depth, Some(AddAlternative(acc, s)), [ZERO + 1] + Zeros(|from|), to, w);
    }
  }

  /** "10...0" is the least canonical word of its length. */
  lemma PowerIsLeast(w: Word)
    requires Canonical(w) && |w| > 1
    ensures LexLe([ZERO + 1] + Zeros(|w| - 1), w)
  {
    var p := [ZERO + 1] + Zeros(|w| - 1);
    assert p[1..] == Zeros(|w| - 1);
    ZerosNines(w[1..]);
  }

  /** Between canonical bounds, exactly the canonical words of the numbers in between are accepted. */
  lemma {:induction false} AcceptedIsInterval(from: Word, w: Word, to: Word)
    requires Canonical(from) && Canonical(to) && |from| <= |to| && Horner(from, 0) <= Horner(to, 0)
    ensures Accepted(from, w, to) <==> Canonical(w) && Horner(from, 0) <= Horner(w, 0) <= Horner(to, 0)
    decreases |to| - |from|
  {
    if |from| == |to| {
      AcceptedOneLength(from, w, to);
    } else {
      var next := [ZERO + 1] + Zeros(|from|);
      if |next| == |to| {
        PowerIsLeast(to);
        LexIsNumeric(next, to, 0);
      } else {
        ShorterIsSmaller(next, to);
      }
      AcceptedIsInterval(next, w, to);
      AcceptedOneLength(from, w, Nines(|from|));
      ZerosNines(from);
      LexIsNumeric(from, Nines(|from|), 0);
      ShorterIsSmaller(from, next);
      if Canonical(w) {
        if |w| <= |from| {
          ShorterIsSmaller(w, next);
          if |w| < |from| {
            ShorterIsSmaller(w, from);
          } else {
            ZerosNines(w);
            LexIsNumeric(w, Nines(|from|), 0);
            ShorterIsSmaller(w, to);
          }
        } else if |w| == |next| {
          PowerIsLeast(w);
          LexIsNumeric(next, w, 0);
        } else {
          ShorterIsSmaller(next, w);
        }
      }
    }
  }

  lemma AcceptedOneLength(from: Word, w: Word, to: Word)
    requires Canonical(from) && DigitWord(to) && |from| == |to|
    ensures InRange(from, w, to) ==> Canonical(w)
    ensures |w| == |from| && DigitWord(w) ==> (InRange(from, w, to) <==> Horner(from, 0) <= Horner(w, 0) <= Horner(to, 0))
    ensures |from| == |w| || !InRange(from, w, to)
    ensures Canonical(to) && Canonical(w) && |w| != |from| ==> !(Horner(from, 0) <= Horner(w, 0) <= Horner(to, 0))
  {
    if |w| == |from| && DigitWord(w) {
      LexIsNumeric(from, w, 0);
      LexIsNumeric(w, to, 0);
    }
    if Canonical(to) && Canonical(w) {
      if |w| < |from| {
        ShorterIsSmaller(w, from);
      } else if |w| > |from| {
        ShorterIsSmaller(to, w);
      }
    }
  }

  lemma NonNegativeExact(g: Rules, depth: nat, acc: Option<Alternatives>, min: nat, max: nat, w: Word)
    requires min <= max
    ensures AlternativesMatch(g, depth, NonNegative(acc, min, max), w) <==>
      (acc.Some? && AlternativesMatch(g, depth, acc.value, w)) || exists v: nat :: min <= v <= max && w == Numeral(v)
  {
    var from, to := Numeral(min), Numeral(max);
    NumeralLength(min, max);
    NumeralIsCanonical(min);
    NumeralIsCanonical(max);
    if |from| == |to| {
      LexIsNumeric(from, to, 0);
    }
    ByLengthMatches(g, depth, acc, from, to, w);
    AcceptedIsInterval(from, w, to);
    if Accepted(from, w, to) {
      CanonicalIsNumeral(w);
    }
    if v: nat :| min <= v <= max && w == Numeral(v) {
      NumeralIsCanonical(v);
    }
  }

  /** The decimal of any integer. */
  function IntWord(v: int): Word {
    if v < 0 then [MINUS] + Numeral(-v) else Numeral(v)
  }

  // ----- decimals, character by character

  /** The number of a word of digits, the last one counting ones. */
  function Read(w: Word): int {
    if w == [] then 0 else 10 * Read(w[..|w| - 1]) + (w[|w| - 1] - '0' as int)
  }

  /** Digits without a leading zero, except for `0` itself. */
  predicate Reads(w: Word, n: int) {
    && w != [] && (forall i :: 0 <= i < |w| ==> '0' as int <= w[i] <= '9' as int) && (|w| > 1 ==> w[0] != '0' as int)
    && Read(w) == n
  }

  lemma {:induction false} ReadIsHorner(w: Word)
    requires DigitWord(w)
    ensures Read(w) == Horner(w, 0)
    decreases |w|
  {
    if w != [] {
      var n := |w| - 1;
      ReadIsHorner(w[..n]);
      HornerSnoc(w[..n], w[n], 0);
      assert w[..n] + [w[n]] == w;
    }
  }

  lemma NumeralReads(n: nat, w: Word)
    ensures w == Numeral(n) <==> Reads(w, n)
  {
    NumeralIsCanonical(n);
    ReadIsHorner(Numeral(n));
    if Reads(w, n) {
      ReadIsHorner(w);
      CanonicalIsNumeral(w);
    }
  }

  /** The decimal of an integer: a minus sign exactly for the negative ones, and the digits of its size. */
  lemma IntWordReads(v: int, w: Word)
    ensures w == IntWord(v) <==> if v < 0 then w != [] && w[0] == '-' as int && Reads(w[1..], -v) else Reads(w, v)
  {
    if v < 0 {
      if w != [] {
        NumeralReads(-v, w[1..]);
        assert w == [w[0]] + w[1..];
      }
    } else {
      NumeralReads(v, w);
    }
  }

  lemma NegatedMatches(g: Rules, depth: nat, alts: Alternatives, w: Word)
    ensures SequenceMatches(g, depth, Negated(alts), w) <==>
      w != [] && w[0] == MINUS && AlternativesMatch(g, depth, alts, w[1..])
  {
    PrefixThen(g, depth, [MINUS], Group(alts), w);
    assert |w| > 0 ==> w[..1] == [w[0]];
  }

  /** With both bounds given, the rule accepts exactly the decimals of the integers between them, and "-0" beside. */
  lemma MinMaxExact(g: Rules, depth: nat, min: int, max: int, w: Word)
    requires min <= max
    ensures AlternativesMatch(g, depth, MinMax(min, max), w) <==>
      (exists v :: min <= v <= max && w == IntWord(v)) || (min < 0 <= max && w == [MINUS, ZERO])
  {
    if max < 0 {
      NegatedInterval(g, depth, -max, -min, w);
      NegativeOnly(w, min, max);
    } else if min < 0 {
      MixedExact(g, depth, min, max, w);
    } else {
      NonNegativeExact(g, depth, None, min, max, w);
      NonNegativeWords(w, min, max);
    }
  }

  lemma MixedExact(g: Rules, depth: nat, min: int, max: int, w: Word)
    requires min < 0 <= max
    ensures AlternativesMatch(g, depth, MinMax(min, max), w) <==>
      (exists v :: min <= v <= max && w == IntWord(v)) || w == [MINUS, ZERO]
  {
    var sign := Only(Negated(NonNegative(None, 0, -min)));
    NegatedInterval(g, depth, 0, -min, w);
    NonNegativeExact(g, depth, Some(sign), 0, max, w);
    assert AlternativesMatch(g, depth, sign, w) <==> IsNegated(w, 0, -min);
    MixedSigns(w, min, max);
  }

  lemma NonNegativeWords(w: Word, min: nat, max: nat)
    ensures (exists v: nat :: min <= v <= max && w == Numeral(v)) <==> exists v :: min <= v <= max && w == IntWord(v)
  {
    if v :| min <= v <= max && w == IntWord(v) {
      assert w == Numeral(v as nat);
    }
    if v: nat :| min <= v <= max && w == Numeral(v) {
      assert w == IntWord(v);
    }
  }

  lemma NegatedInterval(g: Rules, depth: nat, low: nat, high: nat, w: Word)
    requires low <= high
    ensures SequenceMatches(g, depth, Negated(NonNegative(None, low, high)), w) <==> IsNegated(w, low, high)
  {
    NegatedMatches(g, depth, NonNegative(None, low, high), w);
    if w != [] {
      NonNegativeExact(g, depth, None, low, high, w[1..]);
      NegativeWord(w, low, high);
    }
  }

  /** `w` is a minus sign and then the numeral of a number in the interval. */
  predicate IsNegated(w: Word, low: nat, high: nat) {
    w != [] && w[0] == MINUS && Canonical(w[1..]) && low <= Horner(w[1..], 0) <= high
  }

  lemma NegativeWord(w: Word, low: nat, high: nat)
    requires w != []
    ensures IsNegated(w, low, high) <==> w[0] == MINUS && exists v: nat :: low <= v <= high && w[1..] == Numeral(v)
  {
    if IsNegated(w, low, high) {
      CanonicalIsNumeral(w[1..]);
    }
    if v: nat :| low <= v <= high && w[1..] == Numeral(v) {
      NumeralIsCanonical(v);
    }
  }

  lemma NegativeOnly(w: Word, min: int, max: int)
    requires min <= max < 0
    ensures IsNegated(w, -max, -min) <==> exists v :: min <= v <= max && w == IntWord(v)
  {
    if IsNegated(w, -max, -min) {
      NegatedIsNumber(w, -max, -min);
    }
    if v :| min <= v <= max && w == IntWord(v) {
      NumberIsNegated(v, -max, -min);
    }
  }

  lemma NegatedIsNumber(w: Word, low: nat, high: nat)
    requires IsNegated(w, low, high) && low > 0
    ensures -(high as int) <= -(Horner(w[1..], 0) as int) <= -(low as int) && w == IntWord(-(Horner(w[1..], 0) as int))
  {
    CanonicalIsNumeral(w[1..]);
    assert w == [w[0]] + w[1..];
  }

  lemma NumberIsNegated(v: int, low: nat, high: nat)
    requires v < 0 && low <= -v <= high
    ensures IsNegated(IntWord(v), low, high)
  {
    assert IntWord(v)[1..] == Numeral(-v);
    NumeralIsCanonical(-v);
  }

  lemma MinusZeroIsNegated(min: int)
    requires min < 0
    ensures IsNegated([MINUS, ZERO], 0, -min)
  {
    assert [MINUS, ZERO][1..] == [ZERO] == Numeral(0);
    NumeralIsCanonical(0);
  }

  lemma NegatedIsInt(w: Word, min: int)
    requires min < 0 && IsNegated(w, 0, -min)
    ensures w == [MINUS, ZERO] || exists v :: min <= v < 0 && w == IntWord(v)
  {
    var n: int := Horner(w[1..], 0);
    CanonicalIsNumeral(w[1..]);
    assert w == [w[0]] + w[1..];
    if n > 0 {
      assert w == IntWord(0 - n);
    } else {
      assert Numeral(0) == [ZERO];
    }
  }

  lemma IntIsNegated(w: Word, min: int, v: int)
    requires min <= v < 0 && w == IntWord(v)
    ensures IsNegated(w, 0, -min)
  {
    assert w[1..] == Numeral(-v);
    NumeralIsCanonical(-v);
  }

  lemma MixedSigns(w: Word, min: int, max: int)
    requires min < 0 <= max
    ensures IsNegated(w, 0, -min) || (exists v: nat :: 0 <= v <= max && w == Numeral(v)) <==>
      (exists v :: min <= v <= max && w == IntWord(v)) || w == [MINUS, ZERO]
  {
    MinusZeroIsNegated(min);
    if IsNegated(w, 0, -min) {
      NegatedIsInt(w, min);
    }
    if v: nat :| 0 <= v <= max && w == Numeral(v) {
      assert w == IntWord(v);
    }
    if v :| min <= v <= max && w == IntWord(v) {
      if v < 0 {
        IntIsNegated(w, min, v);
      } else {
        assert w == Numeral(v as nat);
      }
    }
  }
}
