/** Compiling a grammar to rules preserves its language. */
module GbnfCorrectness {
  import opened Wrappers
  import opened GbnfSyntax
  import opened GbnfCompiler
  import opened GbnfMeaning
  import opened GbnfSymbols

  // ----- what it means for elements to stand for a piece of syntax in a given table

  /** Rule `id` is synthesised for any number of copies of `one`. */
  ghost predicate IsLoop(t: Symbols, id: nat, one: Elements) {
    IsSynthesized(t, id) && RuleOf(t, id) == OptionalRule(one, [RuleRef(id)])
  }

  /** Rule `ids[j]` is synthesised for at most `j + 1` copies of `one`. */
  ghost predicate IsLink(t: Symbols, ids: seq<nat>, one: Elements, j: nat)
    requires j < |ids|
  {
    IsSynthesized(t, ids[j]) && RuleOf(t, ids[j]) == OptionalRule(one, if j == 0 then [] else [RuleRef(ids[j - 1])])
  }

  ghost predicate IsChain(t: Symbols, ids: seq<nat>, one: Elements) {
    forall j: nat :: j < |ids| ==> IsLink(t, ids, one, j)
  }

  /** `tail` stands for the optional copies of `one` after the mandatory ones. */
  ghost predicate RealizesTail(t: Symbols, tail: Elements, one: Elements, extra: Option<nat>) {
    match extra
    case None => |tail| == 1 && tail[0].RuleRef? && IsLoop(t, tail[0].id, one)
    case Some(n) =>
      if n == 0 then tail == []
      else exists ids: seq<nat> :: IsChain(t, ids, one) && |ids| == n && tail == [RuleRef(ids[n - 1])]
  }

  ghost predicate RealizesRepeat(t: Symbols, es: Elements, one: Elements, op: Repetition) {
    var copies := Copies(one, Fewest(op));
    copies <= es && RealizesTail(t, es[|copies|..], one, Extra(op))
  }

  ghost predicate Realizes(t: Symbols, es: Elements, item: Item)
    decreases item, 0
  {
    match item
    case Literal(chars) => es == LiteralElements(chars)
    case CharClass(negated, parts) => es == ClassElements(negated, parts)
    case AnyChar => es == [CharAny]
    case Ref(name) => |es| == 1 && es[0].RuleRef? && Entry(t.ids, name, es[0].id)
    case Group(alts) =>
      |es| == 1 && es[0].RuleRef? && IsSynthesized(t, es[0].id) && RealizesRule(t, RuleOf(t, es[0].id), alts)
    case Repeat(body, op) => exists one :: Realizes(t, one, body) && RealizesRepeat(t, es, one, op)
  }

  ghost predicate RealizesSequence(t: Symbols, es: Elements, s: Sequence)
    decreases s
  {
    match s
    case Empty => es == []
    case Snoc(init, last) => exists i :: 0 <= i <= |es| && RealizesSequence(t, es[..i], init) && Realizes(t, es[i..], last)
  }

  ghost predicate RealizesAlternatives(t: Symbols, es: Elements, alts: Alternatives)
    decreases alts, 0
  {
    match alts
    case Only(s) => RealizesSequence(t, es, s)
    case Or(init, last) =>
      exists i :: 0 <= i < |es| && es[i] == Alt && RealizesAlternatives(t, es[..i], init) && RealizesSequence(t, es[i + 1..], last)
  }

  ghost predicate RealizesRule(t: Symbols, rule: Elements, alts: Alternatives)
    decreases alts, 1
  {
    rule != [] && rule[|rule| - 1] == End && RealizesAlternatives(t, rule[..|rule| - 1], alts)
  }

  ghost predicate Defined(t: Symbols, g: Rules, name: string, id: nat) {
    if name in g then RealizesRule(t, RuleOf(t, id), g[name]) else RuleOf(t, id) == []
  }

  /** Every name of the table has the rule its definition asks for, or none when it has no definition. */
  ghost predicate Compiled(t: Symbols, g: Rules) {
    && (forall name :: name in g ==> name in t.ids && Plain(name))
    && (forall name, id: nat :: Entry(t.ids, name, id) && Plain(name) ==> Defined(t, g, name, id))
  }

  /** The table keeps its numbering and its finished synthesised rules. */
  ghost predicate Preserves(t: Symbols, u: Symbols) {
    && (forall k, id: nat :: Entry(t.ids, k, id) ==> Entry(u.ids, k, id))
    && (forall r: nat :: IsSynthesized(t, r) && RuleOf(t, r) != [] ==> RuleOf(u, r) == RuleOf(t, r))
  }

  lemma GrowsPreserves(t: Symbols, u: Symbols)
    requires Invariant(t) && Grows(t, u)
    ensures Preserves(t, u)
  {
    forall r: nat | IsSynthesized(t, r) && RuleOf(t, r) != []
      ensures RuleOf(u, r) == RuleOf(t, r)
    {
      SynthesizedIsBelow(t, r);
    }
  }

  lemma SynthesizedStays(t: Symbols, u: Symbols, id: nat)
    requires Preserves(t, u) && IsSynthesized(t, id)
    ensures IsSynthesized(u, id)
  {
    var k :| Entry(t.ids, k, id) && !Plain(k);
    assert Entry(u.ids, k, id);
  }

  lemma ChainStays(t: Symbols, u: Symbols, ids: seq<nat>, one: Elements)
    requires Preserves(t, u) && IsChain(t, ids, one)
    ensures IsChain(u, ids, one)
  {
    forall j: nat | j < |ids|
      ensures IsLink(u, ids, one, j)
    {
      assert IsLink(t, ids, one, j);
      SynthesizedStays(t, u, ids[j]);
    }
  }

  lemma TailStays(t: Symbols, u: Symbols, tail: Elements, one: Elements, extra: Option<nat>)
    requires Preserves(t, u) && RealizesTail(t, tail, one, extra)
    ensures RealizesTail(u, tail, one, extra)
  {
    match extra
    case None => SynthesizedStays(t, u, tail[0].id);
    case Some(n) =>
      if n > 0 {
        var ids: seq<nat> :| IsChain(t, ids, one) && |ids| == n && tail == [RuleRef(ids[n - 1])];
        ChainStays(t, u, ids, one);
      }
  }

  lemma {:induction false} ItemStays(t: Symbols, u: Symbols, es: Elements, item: Item)
    requires Preserves(t, u) && Realizes(t, es, item)
    ensures Realizes(u, es, item)
    decreases item, 0
  {
    match item
    case Group(alts) =>
      SynthesizedStays(t, u, es[0].id);
      var rule := RuleOf(t, es[0].id);
      AlternativesStay(t, u, rule[..|rule| - 1], alts);
    case Repeat(body, op) =>
      var one :| Realizes(t, one, body) && RealizesRepeat(t, es, one, op);
      ItemStays(t, u, one, body);
      TailStays(t, u, es[|Copies(one, Fewest(op))|..], one, Extra(op));
    case _ =>
  }

  lemma {:induction false} SequenceStays(t: Symbols, u: Symbols, es: Elements, s: Sequence)
    requires Preserves(t, u) && RealizesSequence(t, es, s)
    ensures RealizesSequence(u, es, s)
    decreases s
  {
    if s.Snoc? {
      var i :| 0 <= i <= |es| && RealizesSequence(t, es[..i], s.init) && Realizes(t, es[i..], s.last);
      SequenceStays(t, u, es[..i], s.init);
      ItemStays(t, u, es[i..], s.last);
    }
  }

  lemma {:induction false} AlternativesStay(t: Symbols, u: Symbols, es: Elements, alts: Alternatives)
    requires Preserves(t, u) && RealizesAlternatives(t, es, alts)
    ensures RealizesAlternatives(u, es, alts)
    decreases alts, 0
  {
    match alts
    case Only(s) => SequenceStays(t, u, es, s);
    case Or(init, last) =>
      var i :| 0 <= i < |es| && es[i] == Alt && RealizesAlternatives(t, es[..i], init) && RealizesSequence(t, es[i + 1..], last);
      AlternativesStay(t, u, es[..i], init);
      SequenceStays(t, u, es[i + 1..], last);
  }

  // ----- what emission establishes

  /** Elements that form whole items of an alternative and refer to known ids only. */
  predicate Clean(es: Elements, n: nat) {
    Unmarked(es) && StandsAlone(es) && RefsBelow(es, n)
  }

  lemma {:induction false} CopiesClean(es: Elements, n: nat, bound: nat)
    requires Clean(es, bound)
    ensures Clean(Copies(es, n), bound)
  {
    if n > 0 {
      CopiesClean(es, n - 1, bound);
    }
  }

  lemma {:induction false} ClassElementsClean(negated: bool, parts: seq<Part>, bound: nat)
    ensures Clean(ClassElements(negated, parts), bound)
    ensures ClassElements(negated, parts) != [] ==>
      ClassElements(negated, parts)[0].Char? || ClassElements(negated, parts)[0].CharNot?
  {
    if parts != [] {
      ClassElementsClean(negated, parts[..|parts| - 1], bound);
    }
  }

  /** Giving a fresh id a rule of its own. */
  lemma SynthesizedRuleKeeps(t: Symbols, base: string, one: Elements, tail: Elements)
    requires Invariant(t) && Plain(base) && Clean(one, |t.ids|) && Clean(tail, |t.ids| + 1)
    ensures var u := Define(Fresh(t, base).0, |t.ids|, OptionalRule(one, tail));
      && Invariant(u) && Grows(t, u) && |u.ids| == |t.ids| + 1
      && IsSynthesized(u, |t.ids|) && RuleOf(u, |t.ids|) == OptionalRule(one, tail)
  {
    FreshKeeps(t, base);
    var (t1, id) := Fresh(t, base);
    var rule := OptionalRule(one, tail);
    assert rule[..|rule| - 1] == one + tail + [Alt];
    DefineKeeps(t1, id, rule);
    SynthesizedStays(t1, Define(t1, id, rule), id);
  }

  lemma {:induction false} ChainKeeps(t: Symbols, base: string, es: Elements, n: nat) returns (ids: seq<nat>)
    requires Invariant(t) && Plain(base) && Clean(es, |t.ids|)
    ensures var r := Chain(t, base, es, n);
      && Step(t, r.0) && IsChain(r.0, ids, es) && |ids| == n
      && (n > 0 ==> r.1 < |r.0.ids| && ids[n - 1] == r.1)
    decreases n
  {
    if n == 0 {
      ids := [];
      GrowsSelf(t);
    } else {
      var before := Chain(t, base, es, n - 1);
      var t1 := before.0;
      var tail := if n > 1 then [RuleRef(before.1)] else [];
      var u := Define(Fresh(t1, base).0, |t1.ids|, OptionalRule(es, tail));
      assert Chain(t, base, es, n) == (u, |t1.ids|);
      var ids1 := ChainKeeps(t, base, es, n - 1);
      SynthesizedRuleKeeps(t1, base, es, tail);
      StepThen(t, t1, u);
      ids := ids1 + [|t1.ids|];
      ChainGrows(t1, u, ids1, es, |t1.ids|, tail);
    }
  }

  lemma ChainGrows(t: Symbols, u: Symbols, ids: seq<nat>, one: Elements, id: nat, tail: Elements)
    requires Preserves(t, u) && IsChain(t, ids, one)
    requires IsSynthesized(u, id) && RuleOf(u, id) == OptionalRule(one, tail)
    requires tail == if ids == [] then [] else [RuleRef(ids[|ids| - 1])]
    ensures IsChain(u, ids + [id], one)
  {
    ChainStays(t, u, ids, one);
    forall j: nat | j < |ids + [id]|
      ensures IsLink(u, ids + [id], one, j)
    {
      if j < |ids| {
        assert IsLink(u, ids, one, j);
      }
    }
  }

  lemma LoopKeeps(t: Symbols, base: string, es: Elements)
    requires Invariant(t) && Plain(base) && Clean(es, |t.ids|)
    ensures var r := Loop(t, base, es);
      Step(t, r.0) && r.1 < |r.0.ids| && IsLoop(r.0, r.1, es)
  {
    SynthesizedRuleKeeps(t, base, es, [RuleRef(|t.ids|)]);
  }

  lemma CleanConcat(a: Elements, b: Elements, m: nat, n: nat)
    requires Clean(a, m) && Clean(b, n) && m <= n
    ensures Clean(a + b, n)
  {
  }

  /** `u` is a sound table that extends `t`. */
  ghost predicate Step(t: Symbols, u: Symbols) {
    Invariant(u) && Grows(t, u)
  }

  lemma StepThen(t: Symbols, u: Symbols, v: Symbols)
    requires Invariant(t) && Step(t, u) && Step(u, v)
    ensures Step(t, v) && Preserves(u, v) && |t.ids| <= |u.ids| <= |v.ids|
  {
    GrowsTransitive(t, u, v);
    GrowsPreserves(u, v);
  }

  /** The element that an operator adds after the mandatory copies, if any. */
  function TailOf(t: Symbols, base: string, one: Elements, op: Repetition): (Symbols, Elements) {
    match Extra(op)
    case None => var (u, id) := Loop(t, base, one); (u, [RuleRef(id)])
    case Some(n) => if n == 0 then (t, []) else var (u, id) := Chain(t, base, one, n); (u, [RuleRef(id)])
  }

  lemma RepeatIsCopiesAndTail(t: Symbols, base: string, one: Elements, op: Repetition)
    ensures EmitRepeat(t, base, one, op).0 == TailOf(t, base, one, op).0
    ensures EmitRepeat(t, base, one, op).1 == Copies(one, Fewest(op)) + TailOf(t, base, one, op).1
  {
  }

  lemma TailStep(t: Symbols, base: string, one: Elements, op: Repetition)
    requires Invariant(t) && Plain(base) && Clean(one, |t.ids|)
    ensures var r := TailOf(t, base, one, op);
      Step(t, r.0) && Clean(r.1, |r.0.ids|) && RealizesTail(r.0, r.1, one, Extra(op))
  {
    match Extra(op) {
      case None => LoopKeeps(t, base, one);
      case Some(n) => var ids := ChainKeeps(t, base, one, n);
    }
  }

  lemma RepeatKeeps(t: Symbols, base: string, one: Elements, op: Repetition)
    requires Invariant(t) && Plain(base) && Clean(one, |t.ids|)
    ensures var (u, out) := EmitRepeat(t, base, one, op);
      Step(t, u) && Clean(out, |u.ids|) && RealizesRepeat(u, out, one, op)
  {
    TailStep(t, base, one, op);
    RepeatIsCopiesAndTail(t, base, one, op);
    var (u, tail) := TailOf(t, base, one, op);
    var copies := Copies(one, Fewest(op));
    CopiesClean(one, Fewest(op), |t.ids|);
    CleanConcat(copies, tail, |t.ids|, |u.ids|);
    assert (copies + tail)[|copies|..] == tail;
  }

  lemma SequenceJoins(t1: Symbols, u: Symbols, a: Elements, b: Elements, init: Sequence, last: Item)
    requires Preserves(t1, u) && RealizesSequence(t1, a, init) && Realizes(u, b, last)
    ensures RealizesSequence(u, a + b, Snoc(init, last))
  {
    SequenceStays(t1, u, a, init);
    assert (a + b)[..|a|] == a && (a + b)[|a|..] == b;
  }

  lemma AlternativesJoin(t1: Symbols, u: Symbols, a: Elements, b: Elements, init: Alternatives, last: Sequence)
    requires Preserves(t1, u) && RealizesAlternatives(t1, a, init) && RealizesSequence(u, b, last)
    ensures RealizesAlternatives(u, a + [Alt] + b, Or(init, last))
  {
    AlternativesStay(t1, u, a, init);
    var all := a + [Alt] + b;
    assert all[..|a|] == a && all[|a|] == Alt && all[|a| + 1..] == b;
  }

  lemma {:induction false} EmitItemKeeps(t: Symbols, base: string, item: Item)
    requires Invariant(t) && Plain(base) && PlainItem(item)
    ensures var r := EmitItem(t, base, item);
      Step(t, r.0) && Clean(r.1, |r.0.ids|) && Realizes(r.0, r.1, item)
    decreases item, 0
  {
    match item
    case Ref(name) => InternKeeps(t, name);
    case CharClass(negated, parts) => ClassElementsClean(negated, parts, |t.ids|);
    case Group(alts) => EmitGroupKeeps(t, base, alts);
    case Repeat(body, op) =>
      EmitItemKeeps(t, base, body);
      var (t1, one) := EmitItem(t, base, body);
      RepeatKeeps(t1, base, one, op);
      var (u, es) := EmitRepeat(t1, base, one, op);
      StepThen(t, t1, u);
      ItemStays(t1, u, one, body);
    case _ =>
  }

  lemma {:induction false} EmitGroupKeeps(t: Symbols, base: string, alts: Alternatives)
    requires Invariant(t) && Plain(base) && PlainAlternatives(alts)
    ensures var r := EmitItem(t, base, Group(alts));
      Step(t, r.0) && Clean(r.1, |r.0.ids|) && Realizes(r.0, r.1, Group(alts))
    decreases alts, 2
  {
    FreshKeeps(t, base);
    var (t1, id) := Fresh(t, base);
    EmitRuleKeeps(t1, base, id, alts);
    var u := EmitRule(t1, base, id, alts);
    SynthesizedStays(t1, u, id);
    forall k, i: nat | Entry(u.ids, k, i) && Plain(k) && i >= |t.ids|
      ensures RuleOf(u, i) == []
    {
      if i == id {
        SynthesizedIsBelow(u, id);
        assert false;
      }
    }
  }

  lemma {:induction false} EmitSequenceKeeps(t: Symbols, base: string, s: Sequence)
    requires Invariant(t) && Plain(base) && PlainSequence(s)
    ensures var r := EmitSequence(t, base, s);
      Step(t, r.0) && Clean(r.1, |r.0.ids|) && RealizesSequence(r.0, r.1, s)
    decreases s
  {
    if s.Snoc? {
      EmitSequenceKeeps(t, base, s.init);
      var (t1, a) := EmitSequence(t, base, s.init);
      EmitItemKeeps(t1, base, s.last);
      var (u, b) := EmitItem(t1, base, s.last);
      StepThen(t, t1, u);
      SequenceJoins(t1, u, a, b, s.init, s.last);
      CleanConcat(a, b, |t1.ids|, |u.ids|);
    }
  }

  lemma {:induction false} EmitAlternativesKeeps(t: Symbols, base: string, alts: Alternatives)
    requires Invariant(t) && Plain(base) && PlainAlternatives(alts)
    ensures var r := EmitAlternatives(t, base, alts);
      Step(t, r.0) && RefsBelow(r.1, |r.0.ids|) && End !in r.1 && RealizesAlternatives(r.0, r.1, alts)
    decreases alts, 0
  {
    match alts
    case Only(s) => EmitSequenceKeeps(t, base, s);
    case Or(init, last) =>
      EmitAlternativesKeeps(t, base, init);
      var (t1, a) := EmitAlternatives(t, base, init);
      EmitSequenceKeeps(t1, base, last);
      var (u, b) := EmitSequence(t1, base, last);
      StepThen(t, t1, u);
      AlternativesJoin(t1, u, a, b, init, last);
  }

  /** Parsing the body of a rule that has none yet gives it the right one and touches no other. */
  lemma {:induction false} EmitRuleKeeps(t: Symbols, base: string, id: nat, alts: Alternatives)
    requires Invariant(t) && Plain(base) && PlainAlternatives(alts) && id < |t.ids|
    requires RuleOf(t, id) == [] || !IsSynthesized(t, id)
    ensures var u := EmitRule(t, base, id, alts);
      Invariant(u) && GrowsExcept(t, u, id) && RealizesRule(u, RuleOf(u, id), alts) && Preserves(t, u)
    decreases alts, 1
  {
    EmitAlternativesKeeps(t, base, alts);
    var (t1, es) := EmitAlternatives(t, base, alts);
    var rule := es + [End];
    assert rule[..|rule| - 1] == es;
    DefineKeeps(t1, id, rule);
    var u := Define(t1, id, rule);
    GrowsPreserves(t, t1);
    if IsSynthesized(t1, id) {
      SynthesizedBefore(t, t1, id);
      assert RuleOf(t1, id) == [];
    }
    DefinePreserves(t1, u, id);
    AlternativesStay(t1, u, es, alts);
    assert Preserves(t, u);
  }

  lemma DefinePreserves(t: Symbols, u: Symbols, id: nat)
    requires u.ids == t.ids && forall r: nat :: r != id ==> RuleOf(u, r) == RuleOf(t, r)
    requires RuleOf(t, id) == [] || !IsSynthesized(t, id)
    ensures Preserves(t, u)
  {
  }

  lemma RuleStays(t: Symbols, u: Symbols, rule: Elements, alts: Alternatives)
    requires Preserves(t, u) && RealizesRule(t, rule, alts)
    ensures RealizesRule(u, rule, alts)
  {
    AlternativesStay(t, u, rule[..|rule| - 1], alts);
  }

  /** At the end of every prefix of the grammar, the table is sound and every definition is in place. */
  lemma {:induction false} EmitGrammarKeeps(g: Grammar)
    requires PlainGrammar(g)
    ensures Invariant(EmitGrammar(g)) && Compiled(EmitGrammar(g), Bodies(g))
  {
    if g != [] {
      var rule, before := g[|g| - 1], g[..|g| - 1];
      EmitGrammarKeeps(before);
      var t := EmitGrammar(before);
      InternKeeps(t, rule.name);
      var (t1, id) := Intern(t, rule.name);
      GrowsPreserves(t, t1);
      if IsSynthesized(t1, id) {
        SynthesizedIsBelow(t1, id);
        assert false;
      }
      EmitRuleKeeps(t1, rule.name, id, rule.body);
      var u := EmitRule(t1, rule.name, id, rule.body);
      forall name | name in Bodies(g)
        ensures name in u.ids && Plain(name)
      {
        assert Entry(u.ids, rule.name, id);
        if name != rule.name {
          assert Entry(t.ids, name, t.ids[name]);
          assert Entry(t1.ids, name, t.ids[name]) && Entry(u.ids, name, t.ids[name]);
        }
      }
      forall name, i: nat | Entry(u.ids, name, i) && Plain(name)
        ensures Defined(u, Bodies(g), name, i)
      {
        RuleSettled(t, t1, u, Bodies(before), rule, id, name, i);
      }
    }
  }

  /** One more rule leaves every other definition in place. */
  lemma RuleSettled(t: Symbols, t1: Symbols, u: Symbols, g: Rules, rule: Rule, id: nat, name: string, i: nat)
    requires Invariant(t) && Invariant(t1) && Invariant(u) && Compiled(t, g)
    requires Grows(t, t1) && Preserves(t, t1) && GrowsExcept(t1, u, id) && Preserves(t1, u)
    requires Entry(t1.ids, rule.name, id) && RealizesRule(u, RuleOf(u, id), rule.body)
    requires |t1.ids| == |t.ids| || (|t1.ids| == |t.ids| + 1 && id == |t.ids|)
    requires Entry(u.ids, name, i) && Plain(name)
    ensures Defined(u, g[rule.name := rule.body], name, i)
  {
    assert Entry(u.ids, rule.name, id);
    if name != rule.name {
      assert i != id;
      if name in g {
        assert Entry(t.ids, name, t.ids[name]);
        assert Entry(t1.ids, name, t.ids[name]) && Entry(u.ids, name, t.ids[name]);
      }
      if i < |t.ids| {
        assert HasName(t.ids, i);
        var k :| Entry(t.ids, k, i);
        assert Entry(t1.ids, k, i) && Entry(u.ids, k, i);
        assert k == name;
        assert Defined(t, g, name, i);
        if name in g {
          RuleStays(t, t1, RuleOf(t, i), g[name]);
          RuleStays(t1, u, RuleOf(t, i), g[name]);
        }
      } else {
        assert RuleOf(u, i) == [];
      }
    }
  }
}
