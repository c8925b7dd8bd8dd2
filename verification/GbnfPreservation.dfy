/** The compiled rules generate exactly the language of the grammar. */
module GbnfPreservation {
  import opened Wrappers
  import opened Languages
  import opened GbnfSyntax
  import opened GbnfCompiler
  import opened GbnfMeaning
  import opened GbnfSymbols
  import opened GbnfCorrectness

  // ----- elements that stand for syntax are whole items

  lemma {:induction false} ItemElementsWhole(t: Symbols, es: Elements, item: Item)
    requires Realizes(t, es, item)
    ensures Unmarked(es) && StandsAlone(es)
    decreases item
  {
    match item
    case CharClass(negated, parts) => ClassElementsClean(negated, parts, 0);
    case Repeat(body, op) =>
      var one :| Realizes(t, one, body) && RealizesRepeat(t, es, one, op);
      ItemElementsWhole(t, one, body);
      RepeatElementsWhole(t, es, one, op);
    case _ =>
  }

  lemma RepeatElementsWhole(t: Symbols, es: Elements, one: Elements, op: Repetition)
    requires Unmarked(one) && StandsAlone(one) && RealizesRepeat(t, es, one, op)
    ensures Unmarked(es) && StandsAlone(es)
  {
    CopiesWhole(one, Fewest(op));
    var copies := Copies(one, Fewest(op));
    assert es == copies + es[|copies|..];
  }

  lemma {:induction false} CopiesWhole(es: Elements, n: nat)
    requires Unmarked(es) && StandsAlone(es)
    ensures Unmarked(Copies(es, n)) && StandsAlone(Copies(es, n))
  {
    if n > 0 {
      CopiesWhole(es, n - 1);
    }
  }

  lemma {:induction false} SequenceElementsWhole(t: Symbols, es: Elements, s: Sequence)
    requires RealizesSequence(t, es, s)
    ensures Unmarked(es) && StandsAlone(es)
    decreases s
  {
    if s.Snoc? {
      var i :| 0 <= i <= |es| && RealizesSequence(t, es[..i], s.init) && Realizes(t, es[i..], s.last);
      SequenceElementsWhole(t, es[..i], s.init);
      ItemElementsWhole(t, es[i..], s.last);
      WholeConcat(es[..i], es[i..]);
      assert es == es[..i] + es[i..];
    }
  }

  lemma WholeConcat(a: Elements, b: Elements)
    requires Unmarked(a) && StandsAlone(a) && Unmarked(b) && StandsAlone(b)
    ensures Unmarked(a + b) && StandsAlone(a + b)
  {
  }

  lemma {:induction false} AlternativesHaveNoEnd(t: Symbols, es: Elements, alts: Alternatives)
    requires RealizesAlternatives(t, es, alts)
    ensures End !in es
    decreases alts
  {
    match alts
    case Only(s) => SequenceElementsWhole(t, es, s);
    case Or(init, last) =>
      var i :| 0 <= i < |es| && es[i] == Alt && RealizesAlternatives(t, es[..i], init) && RealizesSequence(t, es[i + 1..], last);
      AlternativesHaveNoEnd(t, es[..i], init);
      SequenceElementsWhole(t, es[i + 1..], last);
      NoEndAround(es, i);
  }

  lemma NoEndAround(es: Elements, i: nat)
    requires i < |es| && End !in es[..i] && es[i] == Alt && Unmarked(es[i + 1..])
    ensures End !in es
  {
    assert es == es[..i] + [es[i]] + es[i + 1..];
  }

  // ----- the repetition rewrite

  /** The words that a stretch of elements matches within a depth. */
  ghost function ElementsLanguage(t: Symbols, depth: nat, es: Elements): iset<Word> {
    iset w | ElementsMatch(t, depth, es, w)
  }

  lemma OneRef(t: Symbols, depth: nat, id: nat, w: Word)
    ensures ElementsMatch(t, depth, [RuleRef(id)], w) <==> Derives(t, depth, id, w)
  {
    assert [RuleRef(id)][1..] == [];
    assert w[..|w|] == w && w[|w|..] == [];
    forall i | 0 <= i <= |w| && ElementsMatch(t, depth, [], w[i..])
      ensures w[..i] == w
    {
      assert w[i..] == [];
    }
  }

  lemma OptionalRuleMatches(t: Symbols, depth: nat, one: Elements, rest: Elements, w: Word)
    requires Unmarked(one) && Unmarked(rest)
    ensures RuleMatches(t, depth, OptionalRule(one, rest), w) <==> ElementsMatch(t, depth, one + rest, w) || w == []
  {
    assert OptionalRule(one, rest) == (one + rest) + [Alt] + [] + [End];
    RuleOr(t, depth, one + rest, [], w);
    RuleOnly(t, depth, one + rest, w);
  }

  lemma {:induction false} CopiesToPower(t: Symbols, depth: nat, one: Elements, n: nat, w: Word)
    requires StandsAlone(one) && ElementsMatch(t, depth, Copies(one, n), w)
    ensures Power(ElementsLanguage(t, depth, one), n, w)
  {
    if n > 0 {
      var k := ElementsSplit(t, depth, Copies(one, n - 1), one, w);
      CopiesToPower(t, depth, one, n - 1, w[..k]);
      PowerSnoc(ElementsLanguage(t, depth, one), n - 1, w, k);
    }
  }

  lemma {:induction false} PowerToCopies(t: Symbols, depth: nat, one: Elements, n: nat, w: Word)
    requires StandsAlone(one) && Power(ElementsLanguage(t, depth, one), n, w)
    ensures ElementsMatch(t, depth, Copies(one, n), w)
  {
    if n > 0 {
      var k := PowerUnsnoc(ElementsLanguage(t, depth, one), n, w);
      PowerToCopies(t, depth, one, n - 1, w[..k]);
      ElementsConcat(t, depth, Copies(one, n - 1), one, w[..k], w[k..]);
      assert w == w[..k] + w[k..];
    }
  }

  /** One match of `one` in front of a power, at a greater depth. */
  lemma PowerFront(t: Symbols, shallow: nat, depth: nat, one: Elements, k: nat, w: Word, i: nat)
    requires shallow <= depth && i <= |w|
    requires ElementsMatch(t, depth, one, w[..i]) && Power(ElementsLanguage(t, shallow, one), k, w[i..])
    ensures Power(ElementsLanguage(t, depth, one), k + 1, w)
  {
    ElementsLanguageDeeper(t, shallow, depth, one);
    PowerMonotone(ElementsLanguage(t, shallow, one), ElementsLanguage(t, depth, one), k, w[i..]);
    assert w[..i] in ElementsLanguage(t, depth, one);
  }

  lemma ElementsLanguageDeeper(t: Symbols, depth: nat, deeper: nat, es: Elements)
    requires depth <= deeper
    ensures ElementsLanguage(t, depth, es) <= ElementsLanguage(t, deeper, es)
  {
    forall w | w in ElementsLanguage(t, depth, es)
      ensures w in ElementsLanguage(t, deeper, es)
    {
      ElementsDeeper(t, depth, deeper, es, w);
    }
  }

  /** A nonempty word of `one next |` is a match of `one` and then a word of `next`. */
  lemma OptionalRuleSplit(t: Symbols, depth: nat, id: nat, one: Elements, next: nat, w: Word) returns (i: nat)
    requires Unmarked(one) && StandsAlone(one) && RuleOf(t, id) == OptionalRule(one, [RuleRef(next)])
    requires Derives(t, depth, id, w) && w != []
    ensures i <= |w| && ElementsMatch(t, depth, one, w[..i]) && Derives(t, depth - 1, next, w[i..])
  {
    OptionalRuleMatches(t, depth - 1, one, [RuleRef(next)], w);
    i := ElementsSplit(t, depth - 1, one, [RuleRef(next)], w);
    OneRef(t, depth - 1, next, w[i..]);
    ElementsDeeper(t, depth - 1, depth, one, w[..i]);
  }

  /** The converse, for any word. */
  lemma OptionalRuleJoin(t: Symbols, shallow: nat, depth: nat, id: nat, one: Elements, next: nat, w: Word, i: nat)
    requires Unmarked(one) && RuleOf(t, id) == OptionalRule(one, [RuleRef(next)]) && shallow <= depth
    requires i <= |w| && w[..i] in ElementsLanguage(t, shallow, one) && Derives(t, depth, next, w[i..])
    ensures Derives(t, depth + 1, id, w)
  {
    ElementsDeeper(t, shallow, depth, one, w[..i]);
    OneRef(t, depth, next, w[i..]);
    ElementsConcat(t, depth, one, [RuleRef(next)], w[..i], w[i..]);
    assert w == w[..i] + w[i..];
    OptionalRuleMatches(t, depth, one, [RuleRef(next)], w);
  }

  /** The j-th synthesised rule of a chain derives at most j copies. */
  lemma {:induction false} ChainToPower(t: Symbols, depth: nat, ids: seq<nat>, j: nat, one: Elements, w: Word)
    returns (k: nat)
    requires Unmarked(one) && StandsAlone(one) && IsChain(t, ids, one) && j < |ids| && Derives(t, depth, ids[j], w)
    ensures k <= j + 1 && Power(ElementsLanguage(t, depth, one), k, w)
    decreases j
  {
    assert IsLink(t, ids, one, j);
    if w == [] {
      k := 0;
    } else if j == 0 {
      OptionalRuleMatches(t, depth - 1, one, [], w);
      assert one + [] == one;
      ElementsDeeper(t, depth - 1, depth, one, w);
      k := 1;
      PowerOne(ElementsLanguage(t, depth, one), w);
    } else {
      var i := OptionalRuleSplit(t, depth, ids[j], one, ids[j - 1], w);
      k := ChainToPower(t, depth - 1, ids, j - 1, one, w[i..]);
      PowerFront(t, depth - 1, depth, one, k, w, i);
      k := k + 1;
    }
  }

  /** ... and every number of copies up to j. */
  lemma {:induction false} PowerToChain(t: Symbols, depth: nat, ids: seq<nat>, j: nat, one: Elements, k: nat, w: Word)
    returns (d: nat)
    requires Unmarked(one) && IsChain(t, ids, one) && j < |ids| && k <= j + 1 && Power(ElementsLanguage(t, depth, one), k, w)
    ensures depth <= d && Derives(t, d, ids[j], w)
    decreases j
  {
    assert IsLink(t, ids, one, j);
    if k == 0 {
      EmptyIsOptional(t, depth, ids[j], one, if j == 0 then [] else [RuleRef(ids[j - 1])]);
      d := depth + 1;
    } else if j == 0 {
      PowerOne(ElementsLanguage(t, depth, one), w);
      OneIsOptional(t, depth, ids[j], one, w);
      d := depth + 1;
    } else {
      var i := PowerUncons(ElementsLanguage(t, depth, one), k, w);
      d := PowerToChain(t, depth, ids, j - 1, one, k - 1, w[i..]);
      OptionalRuleJoin(t, depth, d, ids[j], one, ids[j - 1], w, i);
      d := d + 1;
    }
  }

  lemma OneIsOptional(t: Symbols, depth: nat, id: nat, one: Elements, w: Word)
    requires Unmarked(one) && RuleOf(t, id) == OptionalRule(one, []) && w in ElementsLanguage(t, depth, one)
    ensures Derives(t, depth + 1, id, w)
  {
    assert one + [] == one;
    OptionalRuleMatches(t, depth, one, [], w);
  }

  lemma EmptyIsOptional(t: Symbols, depth: nat, id: nat, one: Elements, rest: Elements)
    requires Unmarked(one) && Unmarked(rest) && RuleOf(t, id) == OptionalRule(one, rest)
    ensures Derives(t, depth + 1, id, [])
  {
    OptionalRuleMatches(t, depth, one, rest, []);
  }

  lemma {:induction false} LoopToPower(t: Symbols, depth: nat, id: nat, one: Elements, w: Word) returns (k: nat)
    requires Unmarked(one) && StandsAlone(one) && IsLoop(t, id, one) && Derives(t, depth, id, w)
    ensures Power(ElementsLanguage(t, depth, one), k, w)
    decreases depth
  {
    if w == [] {
      k := 0;
    } else {
      var i := OptionalRuleSplit(t, depth, id, one, id, w);
      k := LoopToPower(t, depth - 1, id, one, w[i..]);
      PowerFront(t, depth - 1, depth, one, k, w, i);
      k := k + 1;
    }
  }

  lemma {:induction false} PowerToLoop(t: Symbols, depth: nat, id: nat, one: Elements, k: nat, w: Word)
    requires Unmarked(one) && IsLoop(t, id, one) && Power(ElementsLanguage(t, depth, one), k, w)
    ensures Derives(t, depth + k + 1, id, w)
    decreases k
  {
    if k == 0 {
      EmptyIsOptional(t, depth, id, one, [RuleRef(id)]);
    } else {
      var i := PowerUncons(ElementsLanguage(t, depth, one), k, w);
      PowerToLoop(t, depth, id, one, k - 1, w[i..]);
      OptionalRuleJoin(t, depth, depth + k, id, one, id, w, i);
    }
  }

  lemma TailToPower(t: Symbols, depth: nat, tail: Elements, one: Elements, extra: Option<nat>, w: Word) returns (k: nat)
    requires Unmarked(one) && StandsAlone(one) && RealizesTail(t, tail, one, extra) && ElementsMatch(t, depth, tail, w)
    ensures (extra.Some? ==> k <= extra.value) && Power(ElementsLanguage(t, depth, one), k, w)
  {
    match extra
    case None =>
      OneElement(tail);
      OneRef(t, depth, tail[0].id, w);
      k := LoopToPower(t, depth, tail[0].id, one, w);
    case Some(n) =>
      if n == 0 {
        k := 0;
      } else {
        var ids: seq<nat> :| IsChain(t, ids, one) && |ids| == n && tail == [RuleRef(ids[n - 1])];
        OneRef(t, depth, ids[n - 1], w);
        k := ChainToPower(t, depth, ids, n - 1, one, w);
      }
  }

  lemma PowerToTail(t: Symbols, depth: nat, tail: Elements, one: Elements, extra: Option<nat>, k: nat, w: Word) returns (d: nat)
    requires Unmarked(one) && StandsAlone(one) && RealizesTail(t, tail, one, extra)
    requires (extra.Some? ==> k <= extra.value) && Power(ElementsLanguage(t, depth, one), k, w)
    ensures depth <= d && ElementsMatch(t, d, tail, w)
  {
    match extra
    case None =>
      PowerToLoop(t, depth, tail[0].id, one, k, w);
      d := depth + k + 1;
      OneElement(tail);
      OneRef(t, d, tail[0].id, w);
    case Some(n) =>
      if n == 0 {
        d := depth;
      } else {
        var ids: seq<nat> :| IsChain(t, ids, one) && |ids| == n && tail == [RuleRef(ids[n - 1])];
        d := PowerToChain(t, depth, ids, n - 1, one, k, w);
        OneRef(t, d, ids[n - 1], w);
      }
  }

  /** Whatever the rewritten elements match is an allowed number of copies of the repeated item. */
  lemma RepeatSound(t: Symbols, depth: nat, es: Elements, one: Elements, op: Repetition, w: Word) returns (k: nat)
    requires Unmarked(one) && StandsAlone(one) && RealizesRepeat(t, es, one, op) && ElementsMatch(t, depth, es, w)
    ensures CountAllowed(op, k) && Power(ElementsLanguage(t, depth, one), k, w)
  {
    var tail := es[|Copies(one, Fewest(op))|..];
    var i := RepeatSplit(t, depth, es, Copies(one, Fewest(op)), tail, w);
    CopiesToPower(t, depth, one, Fewest(op), w[..i]);
    var more := TailToPower(t, depth, tail, one, Extra(op), w[i..]);
    PowerJoin(ElementsLanguage(t, depth, one), Fewest(op), more, w, i);
    k := Fewest(op) + more;
  }

  lemma RepeatSplit(t: Symbols, depth: nat, es: Elements, copies: Elements, tail: Elements, w: Word) returns (i: nat)
    requires copies <= es && tail == es[|copies|..] && StandsAlone(tail) && ElementsMatch(t, depth, es, w)
    ensures i <= |w| && ElementsMatch(t, depth, copies, w[..i]) && ElementsMatch(t, depth, tail, w[i..])
  {
    assert es == copies + tail;
    i := ElementsSplit(t, depth, copies, tail, w);
  }

  /** Every allowed number of copies is matched by the rewritten elements. */
  lemma RepeatComplete(t: Symbols, depth: nat, es: Elements, one: Elements, op: Repetition, k: nat, w: Word) returns (d: nat)
    requires Unmarked(one) && StandsAlone(one) && RealizesRepeat(t, es, one, op)
    requires CountAllowed(op, k) && Power(ElementsLanguage(t, depth, one), k, w)
    ensures ElementsMatch(t, d, es, w)
  {
    var copies, tail := Copies(one, Fewest(op)), es[|Copies(one, Fewest(op))|..];
    var i := PowerSplit(ElementsLanguage(t, depth, one), Fewest(op), k - Fewest(op), w);
    PowerToCopies(t, depth, one, Fewest(op), w[..i]);
    d := PowerToTail(t, depth, tail, one, Extra(op), k - Fewest(op), w[i..]);
    assert StandsAlone(tail) && es == copies + tail;
    CopiesThenTail(t, depth, d, copies, tail, w, i);
  }

  lemma CopiesThenTail(t: Symbols, depth: nat, d: nat, copies: Elements, tail: Elements, w: Word, i: nat)
    requires depth <= d && i <= |w| && StandsAlone(tail)
    requires ElementsMatch(t, depth, copies, w[..i]) && ElementsMatch(t, d, tail, w[i..])
    ensures ElementsMatch(t, d, copies + tail, w)
  {
    ElementsDeeper(t, depth, d, copies, w[..i]);
    ElementsConcat(t, d, copies, tail, w[..i], w[i..]);
    assert w == w[..i] + w[i..];
  }

  /** The two halves of a rule whose alternatives have been split at the last one. */
  lemma OrParts(t: Symbols, rule: Elements, init: Alternatives, last: Sequence) returns (a: Elements, b: Elements)
    requires RealizesRule(t, rule, Or(init, last))
    ensures rule == a + [Alt] + b + [End] && End !in a && Unmarked(b)
    ensures RealizesRule(t, a + [End], init) && RealizesSequence(t, b, last)
  {
    var es := rule[..|rule| - 1];
    var i := OrBar(t, es, init, last);
    a, b := es[..i], es[i + 1..];
    AlternativesHaveNoEnd(t, a, init);
    SequenceElementsWhole(t, b, last);
    assert (a + [End])[..|a + [End]| - 1] == a;
    assert es == a + [Alt] + b;
  }

  lemma OrBar(t: Symbols, es: Elements, init: Alternatives, last: Sequence) returns (i: nat)
    requires RealizesAlternatives(t, es, Or(init, last))
    ensures i < |es| && es[i] == Alt && RealizesAlternatives(t, es[..i], init) && RealizesSequence(t, es[i + 1..], last)
  {
    i :| 0 <= i < |es| && es[i] == Alt && RealizesAlternatives(t, es[..i], init) && RealizesSequence(t, es[i + 1..], last);
  }

  // ----- from the rules to the syntax

  /** A compiled grammar all of whose names are plain. */
  ghost predicate Sound(t: Symbols, g: Rules) {
    Compiled(t, g) && forall name :: name in g ==> PlainAlternatives(g[name])
  }

  lemma {:induction false} ItemFromElements(t: Symbols, g: Rules, depth: nat, es: Elements, item: Item, w: Word)
    requires Sound(t, g) && PlainItem(item) && Realizes(t, es, item) && ElementsMatch(t, depth, es, w)
    ensures ItemMatches(g, depth, item, w)
    decreases depth, item, 1
  {
    match item
    case Ref(name) =>
      OneElement(es);
      OneRef(t, depth, es[0].id, w);
      assert Defined(t, g, name, es[0].id);
      RuleFromElements(t, g, depth - 1, RuleOf(t, es[0].id), g[name], w);
    case Group(alts) => GroupFromElements(t, g, depth, es, alts, w);
    case Repeat(body, op) => RepeatFromElements(t, g, depth, es, body, op, w);
    case _ => TerminalElements(t, g, depth, es, item, w);
  }

  lemma OneElement(es: Elements)
    requires |es| == 1 && es[0].RuleRef?
    ensures es == [RuleRef(es[0].id)]
  {
  }

  lemma TerminalElements(t: Symbols, g: Rules, depth: nat, es: Elements, item: Item, w: Word)
    requires item.Literal? || item.CharClass? || item.AnyChar?
    requires Realizes(t, es, item)
    ensures ItemMatches(g, depth, item, w) <==> ElementsMatch(t, depth, es, w)
  {
    match item
    case Literal(chars) => LiteralMatches(t, depth, chars, w);
    case CharClass(negated, parts) => if parts != [] { ClassMatchesElements(t, depth, negated, parts, w); }
    case AnyChar =>
      assert es[1..] == [];
      if w != [] {
        assert w[1..] == [] <==> |w| == 1;
      }
  }

  lemma {:induction false} GroupFromElements(t: Symbols, g: Rules, depth: nat, es: Elements, alts: Alternatives, w: Word)
    requires Sound(t, g) && PlainAlternatives(alts) && Realizes(t, es, Group(alts)) && ElementsMatch(t, depth, es, w)
    ensures AlternativesMatch(g, depth, alts, w)
    decreases depth, Group(alts), 0
  {
    OneElement(es);
    OneRef(t, depth, es[0].id, w);
    RuleFromElements(t, g, depth - 1, RuleOf(t, es[0].id), alts, w);
    AlternativesDeeper(g, depth - 1, depth, alts, w);
  }

  lemma {:induction false} RepeatFromElements(t: Symbols, g: Rules, depth: nat, es: Elements, body: Item, op: Repetition, w: Word)
    requires Sound(t, g) && PlainItem(body) && Realizes(t, es, Repeat(body, op)) && ElementsMatch(t, depth, es, w)
    ensures ItemMatches(g, depth, Repeat(body, op), w)
    decreases depth, Repeat(body, op), 0
  {
    var one :| Realizes(t, one, body) && RealizesRepeat(t, es, one, op);
    ItemElementsWhole(t, one, body);
    var k := RepeatSound(t, depth, es, one, op, w);
    forall v | v in ElementsLanguage(t, depth, one)
      ensures v in ItemLanguage(g, depth, body)
    {
      ItemFromElements(t, g, depth, one, body, v);
    }
    PowerMonotone(ElementsLanguage(t, depth, one), ItemLanguage(g, depth, body), k, w);
  }

  lemma {:induction false} SequenceFromElements(t: Symbols, g: Rules, depth: nat, es: Elements, s: Sequence, w: Word)
    requires Sound(t, g) && PlainSequence(s) && RealizesSequence(t, es, s) && ElementsMatch(t, depth, es, w)
    ensures SequenceMatches(g, depth, s, w)
    decreases depth, s, 0
  {
    if s.Snoc? {
      var i :| 0 <= i <= |es| && RealizesSequence(t, es[..i], s.init) && Realizes(t, es[i..], s.last);
      var k := SequenceSplit(t, depth, es, s.last, i, w);
      SequenceFromElements(t, g, depth, es[..i], s.init, w[..k]);
      ItemFromElements(t, g, depth, es[i..], s.last, w[k..]);
    }
  }

  lemma SequenceSplit(t: Symbols, depth: nat, es: Elements, last: Item, i: nat, w: Word) returns (k: nat)
    requires i <= |es| && Realizes(t, es[i..], last) && ElementsMatch(t, depth, es, w)
    ensures k <= |w| && ElementsMatch(t, depth, es[..i], w[..k]) && ElementsMatch(t, depth, es[i..], w[k..])
  {
    ItemElementsWhole(t, es[i..], last);
    assert es == es[..i] + es[i..];
    k := ElementsSplit(t, depth, es[..i], es[i..], w);
  }

  lemma SequenceJoin(t: Symbols, d1: nat, d2: nat, es: Elements, last: Item, i: nat, w: Word, k: nat)
    requires i <= |es| && k <= |w| && Realizes(t, es[i..], last)
    requires ElementsMatch(t, d1, es[..i], w[..k]) && ElementsMatch(t, d2, es[i..], w[k..])
    ensures ElementsMatch(t, d1 + d2, es, w)
  {
    ItemElementsWhole(t, es[i..], last);
    ElementsDeeper(t, d1, d1 + d2, es[..i], w[..k]);
    ElementsDeeper(t, d2, d1 + d2, es[i..], w[k..]);
    ElementsJoin(t, d1 + d2, es, i, w, k);
  }

  lemma ElementsJoin(t: Symbols, depth: nat, es: Elements, i: nat, w: Word, k: nat)
    requires i <= |es| && k <= |w| && StandsAlone(es[i..])
    requires ElementsMatch(t, depth, es[..i], w[..k]) && ElementsMatch(t, depth, es[i..], w[k..])
    ensures ElementsMatch(t, depth, es, w)
  {
    ElementsConcat(t, depth, es[..i], es[i..], w[..k], w[k..]);
    assert es == es[..i] + es[i..] && w == w[..k] + w[k..];
  }

  lemma {:induction false} RuleFromElements(t: Symbols, g: Rules, depth: nat, rule: Elements, alts: Alternatives, w: Word)
    requires Sound(t, g) && PlainAlternatives(alts) && RealizesRule(t, rule, alts) && RuleMatches(t, depth, rule, w)
    ensures AlternativesMatch(g, depth, alts, w)
    decreases depth, alts, 0
  {
    match alts
    case Only(s) =>
      var es := rule[..|rule| - 1];
      assert rule == es + [End];
      SequenceElementsWhole(t, es, s);
      RuleOnly(t, depth, es, w);
      SequenceFromElements(t, g, depth, es, s, w);
    case Or(init, last) =>
      var a, b := OrParts(t, rule, init, last);
      RuleOr(t, depth, a, b, w);
      if ElementsMatch(t, depth, b, w) {
        SequenceFromElements(t, g, depth, b, last, w);
      } else {
        RuleFromElements(t, g, depth, a + [End], init, w);
      }
  }

  // ----- from the syntax to the rules

  lemma {:induction false} ItemToElements(t: Symbols, g: Rules, depth: nat, es: Elements, item: Item, w: Word)
    returns (d: nat)
    requires Sound(t, g) && PlainItem(item) && Realizes(t, es, item) && ItemMatches(g, depth, item, w)
    ensures ElementsMatch(t, d, es, w)
    decreases depth, item, 1
  {
    match item
    case Ref(name) =>
      assert Defined(t, g, name, es[0].id);
      d := RuleToElements(t, g, depth - 1, RuleOf(t, es[0].id), g[name], w);
      d := d + 1;
      OneRef(t, d, es[0].id, w);
      OneElement(es);
    case Group(alts) =>
      d := RuleToElements(t, g, depth, RuleOf(t, es[0].id), alts, w);
      d := d + 1;
      OneRef(t, d, es[0].id, w);
      OneElement(es);
    case Repeat(body, op) =>
      d := RepeatToElements(t, g, depth, es, body, op, w);
    case _ =>
      d := depth;
      TerminalElements(t, g, d, es, item, w);
  }

  lemma {:induction false} RepeatToElements(t: Symbols, g: Rules, depth: nat, es: Elements, body: Item, op: Repetition, w: Word)
    returns (d: nat)
    requires Sound(t, g) && PlainItem(body) && Realizes(t, es, Repeat(body, op)) && ItemMatches(g, depth, Repeat(body, op), w)
    ensures ElementsMatch(t, d, es, w)
    decreases depth, Repeat(body, op), 0
  {
    var one :| Realizes(t, one, body) && RealizesRepeat(t, es, one, op);
    ItemElementsWhole(t, one, body);
    var k: nat :| CountAllowed(op, k) && Power(ItemLanguage(g, depth, body), k, w);
    d := PowerToElements(t, g, depth, one, body, k, w);
    d := RepeatComplete(t, d, es, one, op, k, w);
  }

  lemma {:induction false} PowerToElements(t: Symbols, g: Rules, depth: nat, one: Elements, body: Item, k: nat, w: Word)
    returns (d: nat)
    requires Sound(t, g) && PlainItem(body) && Realizes(t, one, body) && Power(ItemLanguage(g, depth, body), k, w)
    ensures Power(ElementsLanguage(t, d, one), k, w)
    decreases depth, body, k + 2
  {
    if k == 0 {
      d := 0;
    } else {
      var i :| 0 <= i <= |w| && w[..i] in ItemLanguage(g, depth, body) && Power(ItemLanguage(g, depth, body), k - 1, w[i..]);
      var d1 := ItemToElements(t, g, depth, one, body, w[..i]);
      var d2 := PowerToElements(t, g, depth, one, body, k - 1, w[i..]);
      d := d1 + d2;
      ElementsDeeper(t, d1, d, one, w[..i]);
      PowerFront(t, d2, d, one, k - 1, w, i);
    }
  }

  lemma LastRealized(t: Symbols, es: Elements, s: Sequence) returns (i: nat)
    requires s.Snoc? && RealizesSequence(t, es, s)
    ensures i <= |es| && RealizesSequence(t, es[..i], s.init) && Realizes(t, es[i..], s.last)
  {
    i :| 0 <= i <= |es| && RealizesSequence(t, es[..i], s.init) && Realizes(t, es[i..], s.last);
  }

  lemma LastMatched(g: Rules, depth: nat, s: Sequence, w: Word) returns (k: nat)
    requires s.Snoc? && SequenceMatches(g, depth, s, w)
    ensures k <= |w| && SequenceMatches(g, depth, s.init, w[..k]) && ItemMatches(g, depth, s.last, w[k..])
  {
    k :| 0 <= k <= |w| && SequenceMatches(g, depth, s.init, w[..k]) && ItemMatches(g, depth, s.last, w[k..]);
  }

  lemma {:induction false} SequenceToElements(t: Symbols, g: Rules, depth: nat, es: Elements, s: Sequence, w: Word)
    returns (d: nat)
    requires Sound(t, g) && PlainSequence(s) && RealizesSequence(t, es, s) && SequenceMatches(g, depth, s, w)
    ensures ElementsMatch(t, d, es, w)
    decreases depth, s, 0
  {
    if s.Empty? {
      d := 0;
    } else {
      var i := LastRealized(t, es, s);
      var k := LastMatched(g, depth, s, w);
      var d1 := SequenceToElements(t, g, depth, es[..i], s.init, w[..k]);
      var d2 := ItemToElements(t, g, depth, es[i..], s.last, w[k..]);
      d := d1 + d2;
      SequenceJoin(t, d1, d2, es, s.last, i, w, k);
    }
  }

  lemma {:induction false} RuleToElements(t: Symbols, g: Rules, depth: nat, rule: Elements, alts: Alternatives, w: Word)
    returns (d: nat)
    requires Sound(t, g) && PlainAlternatives(alts) && RealizesRule(t, rule, alts) && AlternativesMatch(g, depth, alts, w)
    ensures RuleMatches(t, d, rule, w)
    decreases depth, alts, 0
  {
    match alts
    case Only(s) =>
      var es := rule[..|rule| - 1];
      assert rule == es + [End];
      SequenceElementsWhole(t, es, s);
      d := SequenceToElements(t, g, depth, es, s, w);
      RuleOnly(t, d, es, w);
    case Or(init, last) =>
      var a, b := OrParts(t, rule, init, last);
      if AlternativesMatch(g, depth, init, w) {
        d := RuleToElements(t, g, depth, a + [End], init, w);
      } else {
        d := SequenceToElements(t, g, depth, b, last, w);
      }
      RuleOr(t, d, a, b, w);
  }

  // ----- the theorem

  /** A rule of a compiled grammar generates exactly the words of the name it was defined for. */
  lemma LanguagePreserved(t: Symbols, g: Rules, name: string, w: Word)
    requires Sound(t, g) && name in t.ids && Plain(name)
    ensures Generated(t, t.ids[name], w) <==> InLanguage(g, name, w)
  {
    var id := t.ids[name];
    assert Entry(t.ids, name, id);
    assert Realizes(t, [RuleRef(id)], Ref(name));
    if Generated(t, id, w) {
      var depth: nat :| Derives(t, depth, id, w);
      OneRef(t, depth, id, w);
      ItemFromElements(t, g, depth, [RuleRef(id)], Ref(name), w);
    }
    if InLanguage(g, name, w) {
      var depth: nat :| ItemMatches(g, depth, Ref(name), w);
      var d := ItemToElements(t, g, depth, [RuleRef(id)], Ref(name), w);
      OneRef(t, d, id, w);
    }
  }
}
