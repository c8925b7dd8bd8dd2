/** Emitting the rule for a bounded integer as GBNF text, and what that text is read as. */
module SchemaEmitter {
  import opened Wrappers
  import opened Decimals
  import opened GbnfSyntax
  import opened GbnfLexer
  import opened GbnfReader
  import opened GbnfMeaning
  import opened GbnfPrinter
  import opened GbnfParser
  import opened GbnfClosed
  import opened GbnfFragments
  import opened SchemaIntegers
  import opened SchemaReversed
  import SchemaStringsText
  import SchemaStringsMeaning

  // ----- the text, for bounds in any order

  predicate NumberChar(c: char) {
    IsDigit(c) || c == '-'
  }

  /** Digits, or a sign in front of them. */
  predicate NumberText(s: string) {
    forall i :: 0 <= i < |s| ==> NumberChar(s[i])
  }

  function Copies(c: char, n: nat): (s: string)
    ensures |s| == n && forall i :: 0 <= i < n ==> s[i] == c
  {
    seq(n, _ => c)
  }

  function Pred(c: char): char
    requires c > '\0' && c < 128 as char
  {
    (c as int - 1) as char
  }

  function DigitText(from: char, to: char): string {
    "[" + (if from == to then [from] else [from] + "-" + [to]) + "]"
  }

  function MoreText(n: nat): string {
    "[0-9]" + (if n == 1 then "" else "{" + Decimal(n) + "}")
  }

  /** `uniform_range`: the common prefix, then what differs. */
  function RangeText(from: string, to: string): string
    requires AllDigits(from) && NumberText(to)
    decreases |from|, 2
  {
    var i := CommonPrefix(Codes(from), Codes(to));
    (if i > 0 then "\"" + from[..i] + "\"" else "") +
    (if i < |from| && i < |to| then (if i > 0 then " " else "") + DivergingText(from[i..], to[i..]) else "")
  }

  function DivergingText(from: string, to: string): string
    requires from != "" && to != "" && AllDigits(from) && NumberText(to)
    decreases |from|, 1
  {
    if |from| == 1 then "[" + [from[0]] + "-" + [to[0]] + "]" else "(" + CasesText(from, to) + ")"
  }

  predicate Inside(from: string, to: string)
    requires from != "" && to != ""
  {
    from[1..] != Copies('0', |from| - 1) && from[0] as int + 1 < to[0] as int
  }

  function FirstText(from: string, to: string): string
    requires |from| > 1 && to != "" && AllDigits(from) && NumberText(to)
    decreases |from|, 0, 0
  {
    var n := |from| - 1;
    if from[1..] == Copies('0', n) then DigitText(from[0], Pred(to[0])) + " " + MoreText(n)
    else "[" + [from[0]] + "]" + " " + ("(" + RangeText(from[1..], Copies('9', n)) + ")")
  }

  function InsideText(from: string, to: string): string
    requires |from| > 1 && to != "" && AllDigits(from) && NumberText(to) && Inside(from, to)
  {
    var n := |from| - 1;
    DigitText((from[0] as int + 1) as char, if to[1..] == Copies('9', n) then to[0] else Pred(to[0])) + " " + MoreText(n)
  }

  function LastText(from: string, to: string): string
    requires |from| > 1 && to != "" && AllDigits(from) && NumberText(to)
    decreases |from|, 0, 0
  {
    DigitText(to[0], to[0]) + " " + RangeText(Copies('0', |from| - 1), to[1..])
  }

  function CasesText(from: string, to: string): string
    requires |from| > 1 && to != "" && AllDigits(from) && NumberText(to)
    decreases |from|, 0, 1
  {
    FirstText(from, to) + (if Inside(from, to) then " | " + InsideText(from, to) else "") +
    (if Inside(from, to) && to[1..] == Copies('9', |from| - 1) then "" else " | " + LastText(from, to))
  }

  /** One alternative for each number of digits. */
  function LengthsText(minS: string, maxS: string): string
    requires AllDigits(minS) && NumberText(maxS)
    decreases |maxS| - |minS|
  {
    if |minS| >= |maxS| then RangeText(minS, maxS)
    else RangeText(minS, Copies('9', |minS|)) + " | " + LengthsText("1" + Copies('0', |minS|), maxS)
  }

  /** `_build_min_max_int` with both bounds, in any order, neither a sentinel. */
  function BoundsText(min: int, max: int): string {
    if min < 0 && max < 0 then "\"-\" (" + LengthsText(Decimal(-max), Decimal(-min)) + ")"
    else if min < 0 then "\"-\" (" + LengthsText(Decimal(0), Decimal(-min)) + ")" + " | " + LengthsText(Decimal(0), Decimal(max))
    else LengthsText(Decimal(min), IntText(max))
  }

  // ----- writing it

  /** `repeat` of a one-character string. */
  method Repeated(c: char, n: nat) returns (s: string)
    ensures |s| == n && forall i :: 0 <= i < n ==> s[i] == c
  {
    s := "";
    var i := 0;
    while i < n
      invariant 0 <= i <= n
      invariant |s| == i && forall j :: 0 <= j < i ==> s[j] == c
    {
      s := s + [c];
      i := i + 1;
    }
  }

  method UniformRangeText(from: string, to: string) returns (text: string)
    requires AllDigits(from) && NumberText(to)
    ensures text == RangeText(from, to)
    decreases |from|, 1
  {
    var i := 0;
    while i < |from| && i < |to| && from[i] == to[i]
      invariant 0 <= i <= |from| && i <= |to|
      invariant from[..i] == to[..i]
    {
      i := i + 1;
    }
    PrefixIs(from, to, i);
    text := "";
    if i > 0 {
      text := text + ("\"" + from[..i] + "\"");
    }
    if i < |from| && i < |to| {
      var item;
      if |from| - i > 1 {
        item := EmitCases(from[i..], to[i..]);
        item := "(" + item + ")";
      } else {
        item := "[" + [from[i]] + "-" + [to[i]] + "]";
      }
      if i > 0 {
        text := text + (" " + item);
      } else {
        text := text + item;
      }
    }
  }

  lemma PrefixIs(from: string, to: string, i: nat)
    requires i <= |from| && i <= |to| && from[..i] == to[..i] && (i < |from| && i < |to| ==> from[i] != to[i])
    ensures CommonPrefix(Codes(from), Codes(to)) == i
  {
    assert Codes(from)[..i] == Codes(from[..i]) == Codes(to)[..i];
    CommonPrefixIs(Codes(from), Codes(to), i);
  }

  lemma {:induction false} CommonPrefixIs(a: Word, b: Word, n: nat)
    requires n <= |a| && n <= |b| && a[..n] == b[..n]
    requires n < |a| && n < |b| ==> a[n] != b[n]
    ensures CommonPrefix(a, b) == n
    decreases n
  {
    if n > 0 {
      assert a[0] == a[..n][0] == b[..n][0] == b[0];
      assert a[1..][..n - 1] == a[..n][1..] && b[1..][..n - 1] == b[..n][1..];
      CommonPrefixIs(a[1..], b[1..], n - 1);
    }
  }

  method EmitCases(from: string, to: string) returns (text: string)
    requires |from| > 1 && to != "" && AllDigits(from) && NumberText(to)
    ensures text == CasesText(from, to)
    decreases |from|, 0
  {
    var subLen := |from| - 1;
    var subZeros := Repeated('0', subLen);
    var subNines := Repeated('9', subLen);
    assert subZeros == Copies('0', subLen) && subNines == Copies('9', subLen);
    var toReached := false;
    if from[1..] == subZeros {
      text := DigitText(from[0], Pred(to[0])) + " " + MoreText(subLen);
    } else {
      var inner := UniformRangeText(from[1..], subNines);
      text := "[" + [from[0]] + "]" + " " + ("(" + inner + ")");
    }
    ghost var first := text;
    assert first == FirstText(from, to);
    if from[1..] != subZeros && from[0] as int < to[0] as int - 1 {
      var last := to[0];
      if to[1..] == subNines {
        toReached := true;
      } else {
        last := Pred(to[0]);
      }
      text := text + (" | " + (DigitText((from[0] as int + 1) as char, last) + " " + MoreText(subLen)));
    }
    assert text == first + if Inside(from, to) then " | " + InsideText(from, to) else "";
    if !toReached {
      var rest := UniformRangeText(subZeros, to[1..]);
      text := text + (" | " + (DigitText(to[0], to[0]) + " " + rest));
    }
  }

  /** The alternatives by number of digits, behind whatever has been written already. */
  method ByLengthText(start: string, minS: string, maxS: string) returns (out: string)
    requires AllDigits(minS) && NumberText(maxS)
    ensures out == start + LengthsText(minS, maxS)
  {
    var low, digits := minS, |minS|;
    out := start;
    while digits < |maxS|
      invariant digits == |low| && AllDigits(low)
      invariant out + LengthsText(low, maxS) == start + LengthsText(minS, maxS)
      decreases |maxS| - digits
    {
      var nines := Repeated('9', digits);
      var zeros := Repeated('0', digits);
      assert nines == Copies('9', digits) && zeros == Copies('0', digits);
      var range := UniformRangeText(low, nines);
      NextLength(out, low, maxS);
      out := out + range + " | ";
      low := "1" + zeros;
      digits := digits + 1;
    }
    var last := UniformRangeText(low, maxS);
    out := out + last;
  }

  lemma NextLength(out: string, low: string, maxS: string)
    requires AllDigits(low) && NumberText(maxS) && |low| < |maxS|
    ensures out + LengthsText(low, maxS) ==
      out + RangeText(low, Copies('9', |low|)) + " | " + LengthsText("1" + Copies('0', |low|), maxS)
  {
    var a, b := RangeText(low, Copies('9', |low|)), LengthsText("1" + Copies('0', |low|), maxS);
    Assoc(out, a + " | ", b);
    Assoc(out, a, " | ");
  }

  /** `_build_min_max_int` when neither bound, nor the negation of one, is a sentinel that stands for "none". */
  method BuildMinMaxInt(min: int, max: int) returns (out: string)
    requires -INT_MAX < min < INT_MAX && -INT_MAX < max < INT_MAX
    ensures out == BoundsText(min, max)
  {
    if min < 0 && max < 0 {
      var inner := ByLengthText("", Decimal(-max), Decimal(-min));
      NothingBefore(LengthsText(Decimal(-max), Decimal(-min)));
      out := "\"-\" (" + inner + ")";
    } else if min < 0 {
      var inner := ByLengthText("", Decimal(0), Decimal(-min));
      NothingBefore(LengthsText(Decimal(0), Decimal(-min)));
      out := "\"-\" (" + inner + ")" + " | ";
      out := ByLengthText(out, Decimal(0), Decimal(max));
    } else {
      out := ByLengthText("", Decimal(min), IntText(max));
      NothingBefore(LengthsText(Decimal(min), IntText(max)));
    }
  }

  lemma NothingBefore(s: string)
    ensures "" + s == s
  {
  }

  // ----- reading it: classes and literals

  lemma SpanReads(a: char, b: char)
    requires SchemaStringsText.Literally(a) && a != '^' && SchemaStringsText.Literally(b)
    ensures ReadsAsItem("[" + [a] + "-" + [b] + "]", CharClass(false, [Span(a as int, b as int)]))
  {
    var text, item := "[" + [a] + "-" + [b] + "]", CharClass(false, [Span(a as int, b as int)]);
    forall rest: string, nested: bool, acc: Sequence | !IsWordChar(At(rest, 0))
      ensures ReadSequence(text + rest, nested, acc) == ReadSequence(SkipSpace(rest, nested), nested, Snoc(acc, item))
    {
      var inside := [a] + "-" + [b] + "]" + rest;
      assert (text + rest)[1..] == inside && inside[3..] == "]" + rest && ("]" + rest)[1..] == rest;
      SchemaStringsMeaning.SpanStep(inside, []);
      assert [] + [Span(a as int, b as int)] == [Span(a as int, b as int)];
      SchemaStringsText.AtomStep(text + rest, nested, acc, item, SkipSpace(rest, nested));
    }
  }

  lemma SingleReads(c: char)
    requires SchemaStringsText.GoodByte(c as int)
    ensures ReadsAsItem("[" + [c] + "]", CharClass(false, [Single(c as int)]))
  {
    var text := "[" + [c] + "]";
    forall rest: string, nested: bool, acc: Sequence | !IsWordChar(At(rest, 0))
      ensures ReadSequence(text + rest, nested, acc) ==
        ReadSequence(SkipSpace(rest, nested), nested, Snoc(acc, CharClass(false, [Single(c as int)])))
    {
      SchemaStringsText.ChildAtom(c as int, rest, nested);
      SchemaStringsText.AtomStep(text + rest, nested, acc, CharClass(false, [Single(c as int)]), SkipSpace(rest, nested));
    }
  }

  lemma DigitReads(a: char, b: char)
    requires NumberChar(a) && '+' < b <= '9'
    ensures ReadsAsItem(DigitText(a, b), DigitRange(a as int, b as int))
  {
    if a == b {
      SingleReads(a);
    } else {
      SpanReads(a, b);
      assert "[" + ([a] + "-" + [b]) + "]" == "[" + [a] + "-" + [b] + "]";
    }
  }

  lemma MoreReads(n: nat)
    requires n < INT_LIMIT
    ensures ReadsAsItem(MoreText(n), MoreDigits(n))
  {
    SpanReads('0', '9');
    assert "[" + ['0'] + "-" + ['9'] + "]" == "[0-9]";
    if n == 1 {
      assert MoreText(n) == "[0-9]";
    } else {
      OperatorReads("[0-9]", DigitRange(ZERO, NINE), Exactly(n));
    }
  }

  lemma {:induction false} LiteralText(s: string)
    requires AllDigits(s)
    ensures PrintableChars(Codes(s)) && ShowLiteral(Codes(s)) == s
    decreases |s|
  {
    if s != [] {
      LiteralText(s[1..]);
      assert Codes(s)[1..] == Codes(s[1..]);
      assert s == [s[0]] + s[1..];
    }
  }

  lemma LiteralReads(s: string)
    requires AllDigits(s)
    ensures ReadsAsItem("\"" + s + "\"", Literal(Codes(s)))
  {
    LiteralText(s);
    ShownIsItem(Literal(Codes(s)));
  }

  // ----- ranges

  lemma Slices(s: string, i: nat)
    requires i <= |s|
    ensures Codes(s)[..i] == Codes(s[..i]) && Codes(s)[i..] == Codes(s[i..])
  {
  }

  lemma RepeatCodes(n: nat)
    ensures Codes(Copies('0', n)) == Zeros(n) && Codes(Copies('9', n)) == Nines(n)
  {
  }

  lemma CodesInjective(a: string, b: string)
    ensures Codes(a) == Codes(b) <==> a == b
  {
    if Codes(a) == Codes(b) {
      forall i | 0 <= i < |a|
        ensures a[i] == b[i]
      {
        assert Codes(a)[i] == Codes(b)[i];
      }
    }
  }

  lemma {:induction false} RangeReads(from: string, to: string)
    requires AllDigits(from) && NumberText(to) && |from| < INT_LIMIT
    ensures ReadsAsSequence(RangeText(from, to), AnyRange(Codes(from), Codes(to)))
    ensures from != "" && to != "" ==> RangeText(from, to) != ""
    decreases |from|, 2
  {
    var i := CommonPrefix(Codes(from), Codes(to));
    Slices(from, i);
    Slices(to, i);
    LiteralReads(from[..i]);
    var prefix := "\"" + from[..i] + "\"";
    if i > 0 {
      OneItemReads(prefix, Literal(Codes(from[..i])));
      assert prefix + "" == prefix;
    } else {
      NothingIsEmpty();
    }
    if i < |from| && i < |to| {
      DivergingReads(from[i..], to[i..]);
      PrefixedReads(i > 0, prefix, Literal(Codes(from[..i])), DivergingText(from[i..], to[i..]), AnyDiverging(Codes(from[i..]), Codes(to[i..])));
    }
  }

  lemma PrefixedReads(prefixed: bool, prefix: string, literal: Item, text: string, item: Item)
    requires ReadsAsItem(prefix, literal) && ReadsAsItem(text, item)
    ensures ReadsAsSequence((if prefixed then prefix else "") + ((if prefixed then " " else "") + text),
                            Snoc(if prefixed then Snoc(Empty, literal) else Empty, item))
  {
    OneItemReads(prefix, literal);
    OneItemReads(text, item);
    if prefixed {
      BlankBeforeItem(prefix, text, Snoc(Empty, literal), item);
      Assoc(prefix, " ", text);
    } else {
      assert "" + ("" + text) == text;
    }
  }

  lemma {:induction false} DivergingReads(from: string, to: string)
    requires from != "" && to != "" && AllDigits(from) && NumberText(to) && |from| < INT_LIMIT
    ensures ReadsAsItem(DivergingText(from, to), AnyDiverging(Codes(from), Codes(to)))
    decreases |from|, 1
  {
    if |from| == 1 {
      SpanReads(from[0], to[0]);
    } else {
      CasesRead(from, to);
      GroupReads(CasesText(from, to), AnyCases(Codes(from), Codes(to)), "", "");
      assert "(" + "" + CasesText(from, to) + "" + ")" == "(" + CasesText(from, to) + ")";
    }
  }

  lemma MiddleReads(a: char, b: char, n: nat)
    requires NumberChar(a) && '+' < b <= '9' && n < INT_LIMIT
    ensures ReadsAsSequence(DigitText(a, b) + " " + MoreText(n), Middle(a as int, b as int, n))
  {
    DigitReads(a, b);
    MoreReads(n);
    OneItemReads(DigitText(a, b), DigitRange(a as int, b as int));
    BlankBeforeItem(DigitText(a, b), MoreText(n), Snoc(Empty, DigitRange(a as int, b as int)), MoreDigits(n));
  }

  lemma {:induction false} LowerReads(f: char, rest: string)
    requires IsDigit(f) && rest != "" && AllDigits(rest) && |rest| < INT_LIMIT
    ensures ReadsAsSequence("[" + [f] + "]" + " " + ("(" + RangeText(rest, Copies('9', |rest|)) + ")"), Lower(f as int, Codes(rest)))
    decreases |rest|, 3
  {
    var nines := Copies('9', |rest|);
    var range := RangeText(rest, nines);
    RepeatCodes(|rest|);
    RangeReads(rest, nines);
    AnyIsUniform(Codes(rest), Codes(nines));
    OneSequenceReads(range, UniformRange(Codes(rest), Nines(|rest|)));
    GroupReads(range, Only(UniformRange(Codes(rest), Nines(|rest|))), "", "");
    assert "(" + "" + range + "" + ")" == "(" + range + ")";
    SingleReads(f);
    OneItemReads("[" + [f] + "]", CharClass(false, [Single(f as int)]));
    BlankBeforeItem("[" + [f] + "]", "(" + range + ")", Snoc(Empty, CharClass(false, [Single(f as int)])),
                    Group(Only(UniformRange(Codes(rest), Nines(|rest|)))));
  }

  lemma {:induction false} UpperReads(t: char, n: nat, rest: string)
    requires NumberChar(t) && NumberText(rest) && n < INT_LIMIT
    ensures ReadsAsSequence(DigitText(t, t) + " " + RangeText(Copies('0', n), rest), AnyUpper(t as int, Codes(rest), n))
    decreases n, 3
  {
    RepeatCodes(n);
    RangeReads(Copies('0', n), rest);
    DigitReads(t, t);
    OneItemReads(DigitText(t, t), DigitRange(t as int, t as int));
    BlankBetween(DigitText(t, t), RangeText(Copies('0', n), rest), Snoc(Empty, DigitRange(t as int, t as int)), AnyRange(Zeros(n), Codes(rest)));
  }

  /** The first case, as syntax. */
  function FirstCase(from: Word, to: Word): Sequence
    requires |from| > 1 && to != []
  {
    if from[1..] == Zeros(|from| - 1) then Middle(from[0], if to[0] > 0 then to[0] - 1 else 0, |from| - 1) else Lower(from[0], from[1..])
  }

  function InsideCase(from: Word, to: Word): Sequence
    requires |from| > 1 && to != []
  {
    Middle(from[0] + 1, if to[1..] == Nines(|from| - 1) || to[0] == 0 then to[0] else to[0] - 1, |from| - 1)
  }

  /** At most three cases are written. */
  function Three(inside: bool, full: bool, first: Sequence, middle: Sequence, upper: Sequence): Alternatives {
    if !inside then Or(Only(first), upper)
    else if full then Or(Only(first), middle)
    else Or(Or(Only(first), middle), upper)
  }

  lemma CasesAre(from: Word, to: Word)
    requires |from| > 1 && to != []
    ensures AnyCases(from, to) ==
      Three(from[1..] != Zeros(|from| - 1) && from[0] + 1 < to[0], to[1..] == Nines(|from| - 1),
            FirstCase(from, to), InsideCase(from, to), AnyUpper(to[0], to[1..], |from| - 1))
  {
  }

  lemma ThreeRead(inside: bool, full: bool, first: string, middle: string, last: string, f: Sequence, m: Sequence, u: Sequence)
    requires first != "" && ReadsAsSequence(first, f) && last != "" && ReadsAsSequence(last, u)
    requires inside ==> middle != "" && ReadsAsSequence(middle, m)
    ensures ReadsAsAlternatives(first + (if inside then " | " + middle else "") + (if inside && full then "" else " | " + last), Three(inside, full, f, m, u))
  {
    OneSequenceReads(first, f);
    if inside {
      BarBetween(first, middle, Only(f), m);
      Assoc(first, " | ", middle);
      if !full {
        BarBetween(first + " | " + middle, last, Or(Only(f), m), u);
        Assoc(first + " | " + middle, " | ", last);
      } else {
        assert first + " | " + middle + "" == first + " | " + middle;
      }
    } else {
      BarBetween(first, last, Only(f), u);
      assert first + "" == first;
      Assoc(first, " | ", last);
    }
  }

  /** Which cases there are is the same question about words. */
  lemma ConditionsAre(from: string, to: string)
    requires |from| > 1 && to != ""
    ensures var f, t, n := Codes(from), Codes(to), |from| - 1;
      && (from[1..] == Copies('0', n) <==> f[1..] == Zeros(n)) && (to[1..] == Copies('9', n) <==> t[1..] == Nines(n))
      && (Inside(from, to) <==> f[1..] != Zeros(n) && f[0] + 1 < t[0])
      && f[1..] == Codes(from[1..]) && t[1..] == Codes(to[1..])
  {
    var n := |from| - 1;
    Slices(from, 1);
    Slices(to, 1);
    RepeatCodes(n);
    CodesInjective(from[1..], Copies('0', n));
    CodesInjective(to[1..], Copies('9', n));
  }

  lemma FirstOfZeros(from: string, to: string)
    requires |from| > 1 && to != "" && AllDigits(from) && NumberText(to) && from[1..] == Copies('0', |from| - 1)
    ensures FirstText(from, to) == DigitText(from[0], Pred(to[0])) + " " + MoreText(|from| - 1)
    ensures FirstCase(Codes(from), Codes(to)) == Middle(from[0] as int, to[0] as int - 1, |from| - 1)
  {
    ConditionsAre(from, to);
  }

  lemma FirstOfRest(from: string, to: string)
    requires |from| > 1 && to != "" && AllDigits(from) && NumberText(to) && from[1..] != Copies('0', |from| - 1)
    ensures FirstText(from, to) == "[" + [from[0]] + "]" + " " + ("(" + RangeText(from[1..], Copies('9', |from[1..]|)) + ")")
    ensures FirstCase(Codes(from), Codes(to)) == Lower(from[0] as int, Codes(from[1..]))
  {
    ConditionsAre(from, to);
  }

  lemma InsideIs(from: string, to: string)
    requires |from| > 1 && to != "" && AllDigits(from) && NumberText(to) && Inside(from, to)
    ensures var n, f, t := |from| - 1, (from[0] as int + 1) as char, if to[1..] == Copies('9', |from| - 1) then to[0] else Pred(to[0]);
      && InsideText(from, to) == DigitText(f, t) + " " + MoreText(n)
      && InsideCase(Codes(from), Codes(to)) == Middle(f as int, t as int, n) && IsDigit(f) && '+' < t <= '9'
  {
    ConditionsAre(from, to);
  }

  lemma ZerosRead(from: string, to: string)
    requires |from| > 1 && to != "" && AllDigits(from) && NumberText(to) && |from| < INT_LIMIT && from[1..] == Copies('0', |from| - 1)
    ensures FirstText(from, to) != "" && ReadsAsSequence(FirstText(from, to), FirstCase(Codes(from), Codes(to)))
  {
    MiddleReads(from[0], Pred(to[0]), |from| - 1);
    FirstOfZeros(from, to);
  }

  lemma {:induction false} RestReads(from: string, to: string)
    requires |from| > 1 && to != "" && AllDigits(from) && NumberText(to) && |from| < INT_LIMIT && from[1..] != Copies('0', |from| - 1)
    ensures FirstText(from, to) != "" && ReadsAsSequence(FirstText(from, to), FirstCase(Codes(from), Codes(to)))
    decreases |from|, 0, 0
  {
    LowerReads(from[0], from[1..]);
    FirstOfRest(from, to);
  }

  lemma {:induction false} FirstReads(from: string, to: string)
    requires |from| > 1 && to != "" && AllDigits(from) && NumberText(to) && |from| < INT_LIMIT
    ensures FirstText(from, to) != "" && ReadsAsSequence(FirstText(from, to), FirstCase(Codes(from), Codes(to)))
    decreases |from|, 0, 1
  {
    if from[1..] == Copies('0', |from| - 1) {
      ZerosRead(from, to);
    } else {
      RestReads(from, to);
    }
  }

  lemma InsideReads(from: string, to: string)
    requires |from| > 1 && to != "" && AllDigits(from) && NumberText(to) && |from| < INT_LIMIT && Inside(from, to)
    ensures InsideText(from, to) != "" && ReadsAsSequence(InsideText(from, to), InsideCase(Codes(from), Codes(to)))
  {
    InsideIs(from, to);
    MiddleReads((from[0] as int + 1) as char, if to[1..] == Copies('9', |from| - 1) then to[0] else Pred(to[0]), |from| - 1);
  }

  lemma {:induction false} LastReads(from: string, to: string)
    requires |from| > 1 && to != "" && AllDigits(from) && NumberText(to) && |from| < INT_LIMIT
    ensures var t := Codes(to);
      LastText(from, to) != "" && ReadsAsSequence(LastText(from, to), AnyUpper(t[0], t[1..], |from| - 1))
    decreases |from|, 0, 0
  {
    ConditionsAre(from, to);
    UpperReads(to[0], |from| - 1, to[1..]);
  }

  lemma {:induction false} CasesRead(from: string, to: string)
    requires |from| > 1 && to != "" && AllDigits(from) && NumberText(to) && |from| < INT_LIMIT
    ensures ReadsAsAlternatives(CasesText(from, to), AnyCases(Codes(from), Codes(to)))
    decreases |from|, 0, 2
  {
    var f, t := Codes(from), Codes(to);
    ConditionsAre(from, to);
    CasesAre(f, t);
    FirstReads(from, to);
    LastReads(from, to);
    var inside := if Inside(from, to) then InsideText(from, to) else "";
    if Inside(from, to) {
      InsideReads(from, to);
    }
    ThreeRead(Inside(from, to), to[1..] == Copies('9', |from| - 1), FirstText(from, to), inside, LastText(from, to),
              FirstCase(f, t), InsideCase(f, t), AnyUpper(t[0], t[1..], |from| - 1));
  }

  // ----- all the numbers of digits, and the signs

  function Pending(before: string, acc: Option<Alternatives>): string {
    if acc.None? then "" else before + " | "
  }

  lemma AddReads(before: string, acc: Option<Alternatives>, text: string, s: Sequence)
    requires (acc.Some? ==> ReadsAsAlternatives(before, acc.value)) && text != "" && ReadsAsSequence(text, s)
    ensures ReadsAsAlternatives(Pending(before, acc) + text, AddAlternative(acc, s))
  {
    if acc.None? {
      OneSequenceReads(text, s);
      assert "" + text == text;
    } else {
      BarBetween(before, text, acc.value, s);
    }
  }

  lemma {:induction false} LengthsRead(before: string, acc: Option<Alternatives>, minS: string, maxS: string)
    requires acc.Some? ==> ReadsAsAlternatives(before, acc.value)
    requires minS != "" && maxS != "" && AllDigits(minS) && NumberText(maxS) && |minS| < INT_LIMIT && |maxS| < INT_LIMIT
    ensures ReadsAsAlternatives(Pending(before, acc) + LengthsText(minS, maxS), AnyByLength(acc, Codes(minS), Codes(maxS)))
    decreases |maxS| - |minS|
  {
    if |minS| >= |maxS| {
      RangeReads(minS, maxS);
      AddReads(before, acc, RangeText(minS, maxS), AnyRange(Codes(minS), Codes(maxS)));
    } else {
      var n := |minS|;
      var nines, next := Copies('9', n), "1" + Copies('0', n);
      var range := RangeText(minS, nines);
      var s := UniformRange(Codes(minS), Nines(n));
      RepeatCodes(n);
      assert Codes(next) == [ZERO + 1] + Zeros(n);
      RangeReads(minS, nines);
      AnyIsUniform(Codes(minS), Codes(nines));
      AddReads(before, acc, range, s);
      LengthsRead(Pending(before, acc) + range, Some(AddAlternative(acc, s)), next, maxS);
      NextLength(Pending(before, acc), minS, maxS);
    }
  }

  lemma NegatedText(text: string)
    ensures "\"-\"" + " " + ("(" + "" + text + "" + ")") == "\"-\" (" + text + ")"
  {
    assert "\"-\" (" == "\"-\"" + " " + "(";
    assert "(" + "" + text + "" + ")" == "(" + text + ")";
  }

  lemma NegatedReads(text: string, alts: Alternatives)
    requires ReadsAsAlternatives(text, alts)
    ensures ReadsAsAlternatives("\"-\" (" + text + ")", Only(Negated(alts)))
  {
    TokenReads(MINUS);
    assert "\"" + [MINUS as char] + "\"" == "\"-\"";
    OneItemReads("\"-\"", Literal([MINUS]));
    GroupReads(text, alts, "", "");
    BlankBeforeItem("\"-\"", "(" + "" + text + "" + ")", Snoc(Empty, Literal([MINUS])), Group(alts));
    NegatedText(text);
    OneSequenceReads("\"-\" (" + text + ")", Negated(alts));
  }

  function Power10(n: nat): (p: nat)
    ensures p > 0
  {
    if n == 0 then 1 else 10 * Power10(n - 1)
  }

  lemma {:induction false} DecimalFits(v: nat, n: nat)
    requires v < Power10(n)
    ensures |Decimal(v)| <= if n == 0 then 1 else n
    decreases n
  {
    if v >= 10 {
      DecimalFits(v / 10, n - 1);
    }
  }

  lemma IntFits(v: nat)
    requires v <= INT_MAX
    ensures |Decimal(v)| <= 10 && |Numeral(v)| == |Decimal(v)| && Codes(Decimal(v)) == Numeral(v)
  {
    assert Power10(4) == 10_000;
    assert Power10(7) == 10_000_000;
    assert Power10(10) == 10_000_000_000;
    DecimalFits(v, 10);
  }

  lemma IntTextFits(v: int)
    requires -INT_MAX < v < INT_MAX
    ensures IntText(v) != "" && NumberText(IntText(v)) && |IntText(v)| < INT_LIMIT && Codes(IntText(v)) == IntCodes(v)
  {
    IntFits(if v < 0 then -v else v);
    assert v < 0 ==> Codes(IntText(v)) == [MINUS] + Codes(Decimal(-v));
  }

  /** Whatever the order of the bounds, the text is read as the expression. */
  lemma BoundsRead(min: int, max: int)
    requires -INT_MAX < min < INT_MAX && -INT_MAX < max < INT_MAX
    ensures ReadsAsAlternatives(BoundsText(min, max), AnyMinMax(min, max))
  {
    IntTextFits(max);
    IntFits(if min < 0 then -min else min);
    IntFits(if max < 0 then -max else max);
    IntFits(0);
    if min < 0 {
      var low := if max < 0 then -max else 0;
      var inner := LengthsText(Decimal(low), Decimal(-min));
      LengthsRead("", None, Decimal(low), Decimal(-min));
      assert "" + inner == inner;
      NegatedReads(inner, AnyByLength(None, Numeral(low), Numeral(-min)));
      if max >= 0 {
        LengthsRead("\"-\" (" + inner + ")", Some(Only(Negated(AnyByLength(None, Numeral(0), Numeral(-min))))), Decimal(0), Decimal(max));
      }
    } else {
      LengthsRead("", None, Decimal(min), IntText(max));
      assert "" + LengthsText(Decimal(min), IntText(max)) == LengthsText(Decimal(min), IntText(max));
    }
  }

  // ----- no rule is referred to

  lemma {:induction false} AppendNames(a: Sequence, b: Sequence)
    ensures SequenceNames(Append(a, b)) == SequenceNames(a) + SequenceNames(b)
  {
    if b.Snoc? {
      AppendNames(a, b.init);
    }
  }

  lemma PairNames(a: Item, b: Item)
    ensures SequenceNames(Pair(a, b)) == ItemNames(a) + ItemNames(b)
  {
    assert SequenceNames(Snoc(Empty, a)) == ItemNames(a);
  }

  lemma ThreeNames(inside: bool, full: bool, first: Sequence, middle: Sequence, upper: Sequence)
    requires SequenceNames(first) <= {} && SequenceNames(middle) <= {} && SequenceNames(upper) <= {}
    ensures Names(Three(inside, full, first, middle, upper)) <= {}
  {
    assert Names(Or(Only(first), middle)) == SequenceNames(first) + SequenceNames(middle);
  }

  lemma MiddleNames(from: nat, to: nat, n: nat)
    ensures SequenceNames(Middle(from, to, n)) <= {}
  {
    PairNames(DigitRange(from, to), MoreDigits(n));
  }

  lemma {:induction false} LowerNames(f: nat, rest: Word)
    ensures SequenceNames(Lower(f, rest)) <= {}
    decreases |rest|, 3
  {
    RangeNamesNothing(rest, Nines(|rest|));
    AnyIsUniform(rest, Nines(|rest|));
    PairNames(CharClass(false, [Single(f)]), Group(Only(UniformRange(rest, Nines(|rest|)))));
  }

  lemma {:induction false} UpperNames(t: nat, rest: Word, n: nat)
    ensures SequenceNames(AnyUpper(t, rest, n)) <= {}
    decreases n, 3
  {
    RangeNamesNothing(Zeros(n), rest);
    AppendNames(Snoc(Empty, DigitRange(t, t)), AnyRange(Zeros(n), rest));
    assert SequenceNames(Snoc(Empty, DigitRange(t, t))) <= {};
  }

  lemma {:induction false} RangeNamesNothing(from: Word, to: Word)
    ensures SequenceNames(AnyRange(from, to)) <= {}
    decreases |from|, 2
  {
    var i := CommonPrefix(from, to);
    var prefix := if i > 0 then Snoc(Empty, Literal(from[..i])) else Empty;
    assert SequenceNames(prefix) <= {};
    if i < |from| && i < |to| {
      var item := AnyDiverging(from[i..], to[i..]);
      if i + 1 < |from| {
        CasesNameNothing(from[i..], to[i..]);
      }
      assert ItemNames(item) <= {};
    }
  }

  lemma {:induction false} CasesNameNothing(from: Word, to: Word)
    requires |from| > 1 && to != []
    ensures Names(AnyCases(from, to)) <= {}
    decreases |from|, 0
  {
    var n, t := |from| - 1, to[0];
    CasesAre(from, to);
    MiddleNames(from[0], if t > 0 then t - 1 else 0, n);
    LowerNames(from[0], from[1..]);
    MiddleNames(from[0] + 1, if to[1..] == Nines(n) || t == 0 then t else t - 1, n);
    UpperNames(t, to[1..], n);
    ThreeNames(from[1..] != Zeros(n) && from[0] + 1 < t, to[1..] == Nines(n), FirstCase(from, to), InsideCase(from, to), AnyUpper(t, to[1..], n));
  }

  lemma {:induction false} LengthsNameNothing(acc: Option<Alternatives>, from: Word, to: Word)
    requires acc.Some? ==> Names(acc.value) <= {}
    ensures Names(AnyByLength(acc, from, to)) <= {}
    ensures SequenceNames(Negated(AnyByLength(acc, from, to))) <= {}
    decreases |to| - |from|
  {
    if |from| >= |to| {
      RangeNamesNothing(from, to);
    } else {
      RangeNamesNothing(from, Nines(|from|));
      AnyIsUniform(from, Nines(|from|));
      LengthsNameNothing(Some(AddAlternative(acc, UniformRange(from, Nines(|from|)))), [ZERO + 1] + Zeros(|from|), to);
    }
    var alts := AnyByLength(acc, from, to);
    assert ItemNames(Group(alts)) == Names(alts);
    assert SequenceNames(Snoc(Empty, Literal([MINUS]))) <= {};
  }

  lemma BoundsNameNothing(min: int, max: int)
    ensures Names(AnyMinMax(min, max)) <= {}
  {
    if min < 0 && max < 0 {
      LengthsNameNothing(None, IntCodes(-max), IntCodes(-min));
    } else if min < 0 {
      LengthsNameNothing(None, IntCodes(0), IntCodes(-min));
      LengthsNameNothing(Some(Only(Negated(AnyByLength(None, IntCodes(0), IntCodes(-min))))), IntCodes(0), IntCodes(max));
    } else {
      LengthsNameNothing(None, IntCodes(min), IntCodes(max));
    }
  }

  // ----- compiled

  lemma OneRuleCompiles(name: string, text: string, body: Alternatives, w: Word)
    requires PrintableName(name) && ReadsAsAlternatives(text, body) && Names(body) <= {}
    ensures var t := Compile(name + " ::= " + text + "\n");
      name in t.ids && (Generated(t, t.ids[name], w) <==> InLanguage(map[name := body], name, w))
  {
    var lines := [Line(name, text, body)];
    AlternativesAreBody(text, body);
    OneLine(lines[0]);
    WrittenTableCompiles(lines, name, w);
  }

  lemma OneLine(line: Line)
    requires Names(line.body) <= {}
    ensures FormatGrammar([line]) == line.name + " ::= " + line.text + "\n"
    ensures Bodies(Meant([line])) == map[line.name := line.body] && DefinesItsNames(Meant([line]))
  {
    assert [line][1..] == [];
    var g := [Rule(line.name, line.body)];
    assert Meant([line]) == g && g[..0] == [];
    assert Bodies([]) == map[];
    assert line.name + " ::= " + line.text + "\n" + "" == line.name + " ::= " + line.text + "\n";
  }

  /** Both stages together: the emitted text, made a rule and parsed, generates exactly the integers asked for. */
  lemma EmittedIntegerRuleIsExact(name: string, min: int, max: int, text: string, w: Word)
    requires PrintableName(name) && -INT_MAX < min <= max < INT_MAX && text == BoundsText(min, max)
    ensures var t := Compile(name + " ::= " + text + "\n");
      name in t.ids &&
      (Generated(t, t.ids[name], w) <==>
        (exists v :: min <= v <= max && w == IntWord(v)) || (min < 0 <= max && w == [MINUS, ZERO]))
  {
    BoundsRead(min, max);
    BoundsNameNothing(min, max);
    OneRuleCompiles(name, text, AnyMinMax(min, max), w);
    OrderedIsMinMax(min, max);
    OneRuleLanguage(name, MinMax(min, max), min, max, w);
  }

  lemma OneRuleLanguage(name: string, body: Alternatives, min: int, max: int, w: Word)
    requires min <= max && body == MinMax(min, max)
    ensures InLanguage(map[name := body], name, w) <==>
      (exists v :: min <= v <= max && w == IntWord(v)) || (min < 0 <= max && w == [MINUS, ZERO])
  {
    var g := map[name := body];
    if InLanguage(g, name, w) {
      var depth: nat :| ItemMatches(g, depth, Ref(name), w);
      MinMaxExact(g, depth - 1, min, max, w);
    }
    MinMaxExact(g, 0, min, max, w);
    if AlternativesMatch(g, 0, body, w) {
      assert ItemMatches(g, 1, Ref(name), w);
    }
  }

  // ----- bounds in the wrong order

  lemma {:induction false} ItemAnyDepth(g: Rules, depth: nat, item: Item, w: Word)
    requires ItemNames(item) <= {}
    ensures ItemMatches(g, depth, item, w) <==> ItemMatches(g, 0, item, w)
    decreases item
  {
    match item
    case Ref(name) => assert false;
    case Group(alts) => AlternativesAnyDepth(g, depth, alts, w);
    case Repeat(body, op) =>
      forall v: Word
        ensures v in ItemLanguage(g, depth, body) <==> v in ItemLanguage(g, 0, body)
      {
        ItemAnyDepth(g, depth, body, v);
      }
      assert ItemLanguage(g, depth, body) == ItemLanguage(g, 0, body);
    case _ =>
  }

  lemma {:induction false} SequenceAnyDepth(g: Rules, depth: nat, s: Sequence, w: Word)
    requires SequenceNames(s) <= {}
    ensures SequenceMatches(g, depth, s, w) <==> SequenceMatches(g, 0, s, w)
    decreases s
  {
    if s.Snoc? {
      forall i | 0 <= i <= |w|
        ensures SequenceMatches(g, depth, s.init, w[..i]) <==> SequenceMatches(g, 0, s.init, w[..i])
        ensures ItemMatches(g, depth, s.last, w[i..]) <==> ItemMatches(g, 0, s.last, w[i..])
      {
        SequenceAnyDepth(g, depth, s.init, w[..i]);
        ItemAnyDepth(g, depth, s.last, w[i..]);
      }
    }
  }

  /** Without references, the depth of expansion does not matter. */
  lemma {:induction false} AlternativesAnyDepth(g: Rules, depth: nat, alts: Alternatives, w: Word)
    requires Names(alts) <= {}
    ensures AlternativesMatch(g, depth, alts, w) <==> AlternativesMatch(g, 0, alts, w)
    decreases alts
  {
    match alts
    case Only(s) => SequenceAnyDepth(g, depth, s, w);
    case Or(init, last) =>
      AlternativesAnyDepth(g, depth, init, w);
      SequenceAnyDepth(g, depth, last, w);
  }

  lemma OneRuleAccepts(name: string, body: Alternatives, w: Word)
    requires Names(body) <= {}
    ensures InLanguage(map[name := body], name, w) <==> AlternativesMatch(map[name := body], 0, body, w)
  {
    var g := map[name := body];
    if InLanguage(g, name, w) {
      var depth: nat :| ItemMatches(g, depth, Ref(name), w);
      AlternativesAnyDepth(g, depth - 1, body, w);
    }
    if AlternativesMatch(g, 0, body, w) {
      assert ItemMatches(g, 1, Ref(name), w);
    }
  }

  /** The text for a lower bound above the upper one generates something exactly if the signs or the digits before the last differ. */
  lemma EmittedReversedRule(name: string, min: int, max: int, text: string)
    requires PrintableName(name) && -INT_MAX < max < min < INT_MAX && text == BoundsText(min, max)
    ensures var t := Compile(name + " ::= " + text + "\n");
      name in t.ids &&
      ((exists w: Word :: Generated(t, t.ids[name], w)) <==> (min >= 0 && max < 0) || Tens(min) != Tens(max))
  {
    var body := AnyMinMax(min, max);
    var g := map[name := body];
    var t := Compile(name + " ::= " + text + "\n");
    BoundsRead(min, max);
    BoundsNameNothing(min, max);
    var none: Word := [];
    OneRuleCompiles(name, text, body, none);
    forall w: Word
      ensures Generated(t, t.ids[name], w) <==> AlternativesMatch(g, 0, body, w)
    {
      OneRuleCompiles(name, text, body, w);
      OneRuleAccepts(name, body, w);
    }
    ReversedBoundsAccept(g, min, max);
  }
}
