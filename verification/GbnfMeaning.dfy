/** The language of a grammar, once by its syntax and once by its compiled rules. */
module GbnfMeaning {
  import opened GbnfSyntax
  import opened GbnfCompiler
  import opened Languages

  // ----- by syntax: a reference costs one unit of depth, everything else is structural

  predicate PartMatches(part: Part, c: nat) {
    match part
    case Single(x) => c == x
    case Span(lo, hi) => lo <= c <= hi
  }

  predicate ClassMatches(negated: bool, parts: seq<Part>, c: nat) {
    negated != AnyPartMatches(parts, c)
  }

  predicate AnyPartMatches(parts: seq<Part>, c: nat) {
    exists i :: 0 <= i < |parts| && PartMatches(parts[i], c)
  }

  ghost predicate ItemMatches(g: Rules, depth: nat, item: Item, w: Word)
    decreases depth, item, 0
  {
    match item
    case Literal(chars) => w == chars
    case CharClass(negated, parts) =>
      if parts == [] then w == [] else |w| == 1 && ClassMatches(negated, parts, w[0])
    case AnyChar => |w| == 1
    case Ref(name) => depth > 0 && name in g && AlternativesMatch(g, depth - 1, g[name], w)
    case Group(alts) => AlternativesMatch(g, depth, alts, w)
    case Repeat(body, op) => exists k: nat :: CountAllowed(op, k) && Power(ItemLanguage(g, depth, body), k, w)
  }

  ghost function ItemLanguage(g: Rules, depth: nat, item: Item): iset<Word>
    decreases depth, item, 1
  {
    iset w | ItemMatches(g, depth, item, w)
  }

  ghost predicate SequenceMatches(g: Rules, depth: nat, s: Sequence, w: Word)
    decreases depth, s
  {
    match s
    case Empty => w == []
    case Snoc(init, last) =>
      exists i :: 0 <= i <= |w| && SequenceMatches(g, depth, init, w[..i]) && ItemMatches(g, depth, last, w[i..])
  }

  ghost predicate AlternativesMatch(g: Rules, depth: nat, alts: Alternatives, w: Word)
    decreases depth, alts
  {
    match alts
    case Only(s) => SequenceMatches(g, depth, s, w)
    case Or(init, last) => AlternativesMatch(g, depth, init, w) || SequenceMatches(g, depth, last, w)
  }

  /** The words that the grammar gives to a rule name. */
  ghost predicate InLanguage(g: Rules, name: string, w: Word) {
    exists depth: nat :: ItemMatches(g, depth, Ref(name), w)
  }

  // ----- by compiled rules

  function CharValue(e: Element): nat {
    match e
    case Char(c) => c
    case CharNot(c) => c
    case CharAlt(c) => c
    case CharRngUpper(c) => c
    case RuleRef(id) => id
    case _ => 0
  }

  /** Whether some entry of the class that starts at `es[0]` holds for `c`, and the class's length. */
  function FoundIn(es: Elements, c: nat): (r: (bool, nat))
    requires es != []
    ensures 1 <= r.1 <= |es|
    decreases |es|
  {
    var isRange := |es| > 1 && es[1].CharRngUpper?;
    var step := if isRange then 2 else 1;
    var hit := if isRange then CharValue(es[0]) <= c <= es[1].c else es[0].CharAny? || CharValue(es[0]) == c;
    if step < |es| && es[step].CharAlt? then
      var rest := FoundIn(es[step..], c);
      (hit || rest.0, step + rest.1)
    else (hit, step)
  }

  predicate IsAlternate(rule: Elements, i: nat, j: nat) {
    && i <= j < |rule|
    && (i == 0 || rule[i - 1] == Alt)
    && (rule[j] == Alt || rule[j] == End)
    && forall k :: i <= k < j ==> rule[k] != Alt && rule[k] != End
  }

  ghost predicate RuleMatches(t: Symbols, depth: nat, rule: Elements, w: Word)
    decreases depth, |rule| + 1
  {
    exists i: nat, j: nat :: IsAlternate(rule, i, j) && ElementsMatch(t, depth, rule[i..j], w)
  }

  ghost predicate Derives(t: Symbols, depth: nat, id: nat, w: Word)
    decreases depth, 0
  {
    depth > 0 && RuleMatches(t, depth - 1, RuleOf(t, id), w)
  }

  ghost predicate ElementsMatch(t: Symbols, depth: nat, es: Elements, w: Word)
    decreases depth, |es|
  {
    if es == [] then w == []
    else match es[0]
      case RuleRef(id) =>
        exists i :: 0 <= i <= |w| && Derives(t, depth, id, w[..i]) && ElementsMatch(t, depth, es[1..], w[i..])
      case Alt => false
      case End => false
      case CharAlt(_) => false
      case CharRngUpper(_) => false
      case _ =>
        w != [] && FoundIn(es, w[0]).0 != es[0].CharNot? && ElementsMatch(t, depth, es[FoundIn(es, w[0]).1..], w[1..])
  }

  /** The words that the compiled rules derive from a rule id. */
  ghost predicate Generated(t: Symbols, id: nat, w: Word) {
    exists depth: nat :: Derives(t, depth, id, w)
  }

  // ----- more depth never hurts

  lemma {:induction false} ItemDeeper(g: Rules, depth: nat, deeper: nat, item: Item, w: Word)
    requires depth <= deeper && ItemMatches(g, depth, item, w)
    ensures ItemMatches(g, deeper, item, w)
    decreases depth, item
  {
    match item
    case Ref(name) => AlternativesDeeper(g, depth - 1, deeper - 1, g[name], w);
    case Group(alts) => AlternativesDeeper(g, depth, deeper, alts, w);
    case Repeat(body, op) =>
      var lang, larger := ItemLanguage(g, depth, body), ItemLanguage(g, deeper, body);
      forall v | v in lang ensures v in larger {
        ItemDeeper(g, depth, deeper, body, v);
      }
      var k: nat :| CountAllowed(op, k) && Power(lang, k, w);
      PowerMonotone(lang, larger, k, w);
    case _ =>
  }

  lemma {:induction false} SequenceDeeper(g: Rules, depth: nat, deeper: nat, s: Sequence, w: Word)
    requires depth <= deeper && SequenceMatches(g, depth, s, w)
    ensures SequenceMatches(g, deeper, s, w)
    decreases depth, s
  {
    if s.Snoc? {
      var i :| 0 <= i <= |w| && SequenceMatches(g, depth, s.init, w[..i]) && ItemMatches(g, depth, s.last, w[i..]);
      SequenceDeeper(g, depth, deeper, s.init, w[..i]);
      ItemDeeper(g, depth, deeper, s.last, w[i..]);
    }
  }

  lemma {:induction false} AlternativesDeeper(g: Rules, depth: nat, deeper: nat, alts: Alternatives, w: Word)
    requires depth <= deeper && AlternativesMatch(g, depth, alts, w)
    ensures AlternativesMatch(g, deeper, alts, w)
    decreases depth, alts
  {
    match alts
    case Only(s) => SequenceDeeper(g, depth, deeper, s, w);
    case Or(init, last) =>
      if AlternativesMatch(g, depth, init, w) {
        AlternativesDeeper(g, depth, deeper, init, w);
      } else {
        SequenceDeeper(g, depth, deeper, last, w);
      }
  }

  lemma {:induction false} DerivesDeeper(t: Symbols, depth: nat, deeper: nat, id: nat, w: Word)
    requires depth <= deeper && Derives(t, depth, id, w)
    ensures Derives(t, deeper, id, w)
    decreases depth, 0
  {
    RuleDeeper(t, depth - 1, deeper - 1, RuleOf(t, id), w);
  }

  lemma {:induction false} RuleDeeper(t: Symbols, depth: nat, deeper: nat, rule: Elements, w: Word)
    requires depth <= deeper && RuleMatches(t, depth, rule, w)
    ensures RuleMatches(t, deeper, rule, w)
    decreases depth, |rule| + 1
  {
    var i: nat, j: nat :| IsAlternate(rule, i, j) && ElementsMatch(t, depth, rule[i..j], w);
    ElementsDeeper(t, depth, deeper, rule[i..j], w);
  }

  lemma {:induction false} ElementsDeeper(t: Symbols, depth: nat, deeper: nat, es: Elements, w: Word)
    requires depth <= deeper && ElementsMatch(t, depth, es, w)
    ensures ElementsMatch(t, deeper, es, w)
    decreases depth, |es|
  {
    if es != [] {
      if es[0].RuleRef? {
        var i :| 0 <= i <= |w| && Derives(t, depth, es[0].id, w[..i]) && ElementsMatch(t, depth, es[1..], w[i..]);
        DerivesDeeper(t, depth, deeper, es[0].id, w[..i]);
        ElementsDeeper(t, depth, deeper, es[1..], w[i..]);
      } else {
        ElementsDeeper(t, depth, deeper, es[FoundIn(es, w[0]).1..], w[1..]);
      }
    }
  }

  // ----- concatenation

  /** Elements that begin an item of their own, rather than continue the class before them. */
  predicate StandsAlone(es: Elements) {
    es == [] || !(es[0].CharAlt? || es[0].CharRngUpper?)
  }

  lemma {:induction false} FoundInFront(a: Elements, b: Elements, c: nat)
    requires a != [] && StandsAlone(b)
    ensures FoundIn(a + b, c) == FoundIn(a, c)
    decreases |a|
  {
    var step := if |a| > 1 && a[1].CharRngUpper? then 2 else 1;
    if step < |a| {
      assert (a + b)[step..] == a[step..] + b;
      if a[step].CharAlt? {
        FoundInFront(a[step..], b, c);
      }
    }
  }

  lemma RefStep(t: Symbols, depth: nat, es: Elements, w: Word, i: nat)
    requires es != [] && es[0].RuleRef? && i <= |w|
    requires Derives(t, depth, es[0].id, w[..i]) && ElementsMatch(t, depth, es[1..], w[i..])
    ensures ElementsMatch(t, depth, es, w)
  {
  }

  lemma CharStep(t: Symbols, depth: nat, es: Elements, w: Word)
    requires es != [] && w != [] && (es[0].Char? || es[0].CharNot? || es[0].CharAny?)
    requires FoundIn(es, w[0]).0 != es[0].CharNot? && ElementsMatch(t, depth, es[FoundIn(es, w[0]).1..], w[1..])
    ensures ElementsMatch(t, depth, es, w)
  {
  }

  lemma {:induction false} ElementsConcat(t: Symbols, depth: nat, a: Elements, b: Elements, u: Word, v: Word)
    requires StandsAlone(b) && ElementsMatch(t, depth, a, u) && ElementsMatch(t, depth, b, v)
    ensures ElementsMatch(t, depth, a + b, u + v)
    decreases |a|
  {
    if a == [] {
      assert a + b == b && u + v == v;
    } else if a[0].RuleRef? {
      var i :| 0 <= i <= |u| && Derives(t, depth, a[0].id, u[..i]) && ElementsMatch(t, depth, a[1..], u[i..]);
      assert (a + b)[1..] == a[1..] + b && (u + v)[..i] == u[..i] && (u + v)[i..] == u[i..] + v;
      ElementsConcat(t, depth, a[1..], b, u[i..], v);
      RefStep(t, depth, a + b, u + v, i);
    } else {
      FoundInFront(a, b, u[0]);
      var n := FoundIn(a, u[0]).1;
      assert (a + b)[n..] == a[n..] + b && (u + v)[1..] == u[1..] + v;
      ElementsConcat(t, depth, a[n..], b, u[1..], v);
      CharStep(t, depth, a + b, u + v);
    }
  }

  lemma RefUnfold(t: Symbols, depth: nat, es: Elements, w: Word) returns (i: nat)
    requires es != [] && es[0].RuleRef? && ElementsMatch(t, depth, es, w)
    ensures i <= |w| && Derives(t, depth, es[0].id, w[..i]) && ElementsMatch(t, depth, es[1..], w[i..])
  {
    i :| 0 <= i <= |w| && Derives(t, depth, es[0].id, w[..i]) && ElementsMatch(t, depth, es[1..], w[i..]);
  }

  lemma RefRejoin(t: Symbols, depth: nat, a: Elements, b: Elements, w: Word, i: nat, j: nat)
    requires a != [] && a[0].RuleRef? && i + j <= |w|
    requires Derives(t, depth, a[0].id, w[..i]) && ElementsMatch(t, depth, a[1..], w[i..][..j]) && ElementsMatch(t, depth, b, w[i..][j..])
    ensures ElementsMatch(t, depth, a, w[..i + j]) && ElementsMatch(t, depth, b, w[i + j..])
  {
    assert w[..i + j][..i] == w[..i] && w[..i + j][i..] == w[i..][..j] && w[i..][j..] == w[i + j..];
    RefStep(t, depth, a, w[..i + j], i);
  }

  lemma CharRejoin(t: Symbols, depth: nat, a: Elements, b: Elements, w: Word, j: nat)
    requires a != [] && (a[0].Char? || a[0].CharNot? || a[0].CharAny?) && j < |w| && FoundIn(a, w[0]).0 != a[0].CharNot?
    requires ElementsMatch(t, depth, a[FoundIn(a, w[0]).1..], w[1..][..j]) && ElementsMatch(t, depth, b, w[1..][j..])
    ensures ElementsMatch(t, depth, a, w[..j + 1]) && ElementsMatch(t, depth, b, w[j + 1..])
  {
    assert w[..j + 1][1..] == w[1..][..j] && w[1..][j..] == w[j + 1..];
    CharStep(t, depth, a, w[..j + 1]);
  }

  lemma {:induction false} ElementsSplit(t: Symbols, depth: nat, a: Elements, b: Elements, w: Word) returns (k: nat)
    requires StandsAlone(b) && ElementsMatch(t, depth, a + b, w)
    ensures k <= |w| && ElementsMatch(t, depth, a, w[..k]) && ElementsMatch(t, depth, b, w[k..])
    decreases |a|
  {
    if a == [] {
      k := 0;
      assert a + b == b && w[0..] == w;
    } else if a[0].RuleRef? {
      var i := RefUnfold(t, depth, a + b, w);
      assert (a + b)[1..] == a[1..] + b;
      var j := ElementsSplit(t, depth, a[1..], b, w[i..]);
      k := i + j;
      RefRejoin(t, depth, a, b, w, i, j);
    } else {
      FoundInFront(a, b, w[0]);
      var n := FoundIn(a, w[0]).1;
      assert (a + b)[n..] == a[n..] + b;
      var j := ElementsSplit(t, depth, a[n..], b, w[1..]);
      k := j + 1;
      CharRejoin(t, depth, a, b, w, j);
    }
  }

  // ----- literals and classes

  lemma {:induction false} LiteralMatches(t: Symbols, depth: nat, chars: Word, w: Word)
    ensures ElementsMatch(t, depth, LiteralElements(chars), w) <==> w == chars
    decreases |chars|
  {
    if chars != [] {
      var es := LiteralElements(chars);
      assert es[1..] == LiteralElements(chars[1..]);
      if w != [] {
        LiteralMatches(t, depth, chars[1..], w[1..]);
        assert w == chars <==> w[0] == chars[0] && w[1..] == chars[1..];
      }
    }
  }

  lemma {:induction false} RunExtends(es: Elements, more: Elements, c: nat)
    requires es != [] && FoundIn(es, c).1 == |es| && more != [] && more[0].CharAlt?
    ensures FoundIn(es + more, c) == (FoundIn(es, c).0 || FoundIn(more, c).0, |es| + FoundIn(more, c).1)
    decreases |es|
  {
    var step := if |es| > 1 && es[1].CharRngUpper? then 2 else 1;
    assert (es + more)[step..] == es[step..] + more;
    if step < |es| {
      RunExtends(es[step..], more, c);
    } else {
      assert es[step..] + more == more;
    }
  }

  lemma {:induction false} ClassRun(negated: bool, parts: seq<Part>, c: nat)
    requires parts != []
    ensures var es := ClassElements(negated, parts);
      && FoundIn(es, c) == (AnyPartMatches(parts, c), |es|)
      && es[0] == (if negated then CharNot(CharValue(es[0])) else Char(CharValue(es[0])))
    decreases |parts|
  {
    var init, part := parts[..|parts| - 1], parts[|parts| - 1];
    PartRun(part, |parts| == 1, negated, c);
    if |parts| == 1 {
      assert ClassElements(negated, parts) == PartElements(part, true, negated);
      assert PartMatches(parts[0], c) == PartMatches(part, c);
    } else {
      ClassRun(negated, init, c);
      LastPart(parts, c);
      ClassRunSnoc(negated, init, part, c);
    }
  }

  lemma ClassRunSnoc(negated: bool, init: seq<Part>, part: Part, c: nat)
    requires init != []
    requires var es := ClassElements(negated, init);
      && FoundIn(es, c) == (AnyPartMatches(init, c), |es|)
      && es[0] == (if negated then CharNot(CharValue(es[0])) else Char(CharValue(es[0])))
    requires FoundIn(PartElements(part, false, negated), c) == (PartMatches(part, c), |PartElements(part, false, negated)|)
    ensures var es := ClassElements(negated, init) + PartElements(part, false, negated);
      && FoundIn(es, c) == (AnyPartMatches(init, c) || PartMatches(part, c), |es|)
      && es[0] == (if negated then CharNot(CharValue(es[0])) else Char(CharValue(es[0])))
  {
    RunExtends(ClassElements(negated, init), PartElements(part, false, negated), c);
  }

  lemma PartRun(part: Part, first: bool, negated: bool, c: nat)
    ensures FoundIn(PartElements(part, first, negated), c) == (PartMatches(part, c), |PartElements(part, first, negated)|)
  {
  }

  lemma LastPart(parts: seq<Part>, c: nat)
    requires parts != []
    ensures AnyPartMatches(parts, c) <==> AnyPartMatches(parts[..|parts| - 1], c) || PartMatches(parts[|parts| - 1], c)
  {
    assert forall i :: 0 <= i < |parts| - 1 ==> parts[..|parts| - 1][i] == parts[i];
  }

  lemma ClassMatchesElements(t: Symbols, depth: nat, negated: bool, parts: seq<Part>, w: Word)
    requires parts != []
    ensures ElementsMatch(t, depth, ClassElements(negated, parts), w) <==>
      |w| == 1 && ClassMatches(negated, parts, w[0])
  {
    if w != [] {
      ClassRun(negated, parts, w[0]);
      assert w[1..] == [] <==> |w| == 1;
    } else {
      ClassRun(negated, parts, 0);
    }
  }

  // ----- alternatives

  predicate Unmarked(es: Elements) {
    forall i :: 0 <= i < |es| ==> es[i] != Alt && es[i] != End
  }

  lemma RuleOnly(t: Symbols, depth: nat, es: Elements, w: Word)
    requires Unmarked(es)
    ensures RuleMatches(t, depth, es + [End], w) <==> ElementsMatch(t, depth, es, w)
  {
    var rule := es + [End];
    assert IsAlternate(rule, 0, |es|) && rule[0..|es|] == es;
    forall i: nat, j: nat | IsAlternate(rule, i, j)
      ensures i == 0 && j == |es|
    {
    }
  }

  lemma RuleOr(t: Symbols, depth: nat, a: Elements, b: Elements, w: Word)
    requires End !in a && Unmarked(b)
    ensures RuleMatches(t, depth, a + [Alt] + b + [End], w) <==>
      RuleMatches(t, depth, a + [End], w) || ElementsMatch(t, depth, b, w)
  {
    var rule, front, n := a + [Alt] + b + [End], a + [End], |a|;
    assert rule[n] == Alt;
    assert forall k :: 0 <= k < n ==> rule[k] == front[k];
    assert forall k :: 0 <= k < |b| ==> rule[n + 1 + k] == b[k];
    forall i: nat, j: nat | IsAlternate(front, i, j)
      ensures IsAlternate(rule, i, j) && rule[i..j] == front[i..j]
    {
    }
    assert IsAlternate(rule, n + 1, n + 1 + |b|) && rule[n + 1..n + 1 + |b|] == b;
    forall i: nat, j: nat | IsAlternate(rule, i, j)
      ensures (i == n + 1 && rule[i..j] == b) || (IsAlternate(front, i, j) && rule[i..j] == front[i..j])
    {
      if i <= n {
        assert j <= n;
        assert i > 0 ==> rule[i - 1] == front[i - 1];
      } else {
        assert rule[i - 1] == Alt;
        assert j == n + 1 + |b|;
      }
    }
  }

  lemma OneItem(g: Rules, depth: nat, item: Item, w: Word)
    ensures SequenceMatches(g, depth, Snoc(Empty, item), w) <==> ItemMatches(g, depth, item, w)
  {
    assert w[..0] == [] && w[0..] == w;
    forall j | 0 <= j <= |w| && SequenceMatches(g, depth, Empty, w[..j])
      ensures j == 0
    {
      assert |w[..j]| == j;
    }
  }
}
