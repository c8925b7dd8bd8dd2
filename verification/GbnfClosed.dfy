/** A grammar that defines every name it refers to compiles to a closed table. */
module GbnfClosed {
  import opened Wrappers
  import opened GbnfSyntax
  import opened GbnfReader
  import opened GbnfCompiler
  import opened GbnfMeaning
  import opened GbnfSymbols
  import opened GbnfCorrectness
  import opened GbnfPrinter
  import opened GbnfParser

  function ItemNames(item: Item): set<string>
    decreases item
  {
    match item
    case Ref(name) => {name}
    case Group(alts) => Names(alts)
    case Repeat(body, _) => ItemNames(body)
    case _ => {}
  }

  function SequenceNames(s: Sequence): set<string>
    decreases s
  {
    if s.Empty? then {} else SequenceNames(s.init) + ItemNames(s.last)
  }

  /** The names that a body refers to. */
  function Names(alts: Alternatives): set<string>
    decreases alts
  {
    match alts
    case Only(s) => SequenceNames(s)
    case Or(init, last) => Names(init) + SequenceNames(last)
  }

  ghost predicate DefinesItsNames(g: Grammar) {
    forall i :: 0 <= i < |g| ==> Names(g[i].body) <= Bodies(g).Keys
  }

  /** Between `t` and `u` every new synthesised rule got its elements, and the only new names are in `names`. */
  ghost predicate Filled(t: Symbols, u: Symbols, names: set<string>) {
    && (forall id: nat :: |t.ids| <= id && IsSynthesized(u, id) ==> RuleOf(u, id) != [])
    && (forall k, id: nat :: Entry(u.ids, k, id) && Plain(k) ==> k in names || Entry(t.ids, k, id))
  }

  lemma FilledTransitive(t: Symbols, u: Symbols, v: Symbols, a: set<string>, b: set<string>)
    requires Invariant(t) && Step(t, u) && Step(u, v) && Filled(t, u, a) && Filled(u, v, b)
    ensures Filled(t, v, a + b)
  {
    forall id: nat | |t.ids| <= id && IsSynthesized(v, id)
      ensures RuleOf(v, id) != []
    {
      if id < |u.ids| {
        SynthesizedBefore(u, v, id);
      }
    }
  }

  /** Giving one fresh id its rule at once. */
  lemma FreshRuleFilled(t: Symbols, base: string, one: Elements, tail: Elements)
    requires Invariant(t) && Plain(base) && Clean(one, |t.ids|) && Clean(tail, |t.ids| + 1)
    ensures Filled(t, Define(Fresh(t, base).0, |t.ids|, OptionalRule(one, tail)), {})
  {
    SynthesizedRuleKeeps(t, base, one, tail);
    var u := Define(Fresh(t, base).0, |t.ids|, OptionalRule(one, tail));
    forall id: nat | |t.ids| <= id && IsSynthesized(u, id)
      ensures RuleOf(u, id) != []
    {
      SynthesizedIsBelow(u, id);
    }
    NewNameIsMarked(t, base);
  }

  lemma NewNameIsMarked(t: Symbols, base: string)
    requires Invariant(t) && Plain(base)
    ensures forall k, id: nat :: Entry(Fresh(t, base).0.ids, k, id) && Plain(k) ==> Entry(t.ids, k, id)
  {
    SynthesizedNameIsMarked(base, |t.ids|);
  }

  lemma {:induction false} ChainFilled(t: Symbols, base: string, es: Elements, n: nat)
    requires Invariant(t) && Plain(base) && Clean(es, |t.ids|)
    ensures Filled(t, Chain(t, base, es, n).0, {})
    decreases n
  {
    if n == 0 {
      NothingFilled(t, {});
    } else {
      var before := Chain(t, base, es, n - 1);
      var t1 := before.0;
      var tail := if n > 1 then [RuleRef(before.1)] else [];
      var u := Define(Fresh(t1, base).0, |t1.ids|, OptionalRule(es, tail));
      assert Chain(t, base, es, n).0 == u;
      var ids := ChainKeeps(t, base, es, n - 1);
      ChainFilled(t, base, es, n - 1);
      SynthesizedRuleKeeps(t1, base, es, tail);
      FreshRuleFilled(t1, base, es, tail);
      FilledTransitive(t, t1, u, {}, {});
    }
  }

  lemma NothingFilled(t: Symbols, names: set<string>)
    requires Invariant(t)
    ensures Filled(t, t, names)
  {
    NoneAbove(t);
  }

  lemma NoneAbove(t: Symbols)
    requires Invariant(t)
    ensures forall id: nat :: |t.ids| <= id ==> !IsSynthesized(t, id)
  {
    forall id: nat | |t.ids| <= id
      ensures !IsSynthesized(t, id)
    {
      if IsSynthesized(t, id) {
        SynthesizedIsBelow(t, id);
      }
    }
  }

  lemma RepeatFilled(t: Symbols, base: string, one: Elements, op: Repetition)
    requires Invariant(t) && Plain(base) && Clean(one, |t.ids|)
    ensures Filled(t, EmitRepeat(t, base, one, op).0, {})
  {
    match Extra(op) {
      case None => FreshRuleFilled(t, base, one, [RuleRef(|t.ids|)]);
      case Some(n) =>
        if n == 0 {
          NothingFilled(t, {});
        } else {
          ChainFilled(t, base, one, n);
        }
    }
  }

  lemma {:induction false} ItemFilled(t: Symbols, base: string, item: Item)
    requires Invariant(t) && Plain(base) && PlainItem(item)
    ensures Filled(t, EmitItem(t, base, item).0, ItemNames(item))
    decreases item, 0
  {
    match item
    case Ref(name) => InternFilled(t, name);
    case Group(alts) => GroupFilled(t, base, alts);
    case Repeat(body, op) =>
      EmitItemKeeps(t, base, body);
      ItemFilled(t, base, body);
      var (t1, one) := EmitItem(t, base, body);
      RepeatKeeps(t1, base, one, op);
      RepeatFilled(t1, base, one, op);
      FilledTransitive(t, t1, EmitRepeat(t1, base, one, op).0, ItemNames(body), {});
      assert ItemNames(item) + {} == ItemNames(item);
    case _ => NothingFilled(t, {});
  }

  lemma InternFilled(t: Symbols, name: string)
    requires Invariant(t) && Plain(name)
    ensures Filled(t, Intern(t, name).0, {name})
  {
    InternKeeps(t, name);
    var u := Intern(t, name).0;
    if name in t.ids {
      NothingFilled(t, {name});
    } else {
      EnterKeepsBijective(t.ids, name);
      forall id: nat | |t.ids| <= id
        ensures !IsSynthesized(u, id)
      {
        forall k | !Plain(k)
          ensures !Entry(u.ids, k, id)
        {
          assert Entry(u.ids, k, id) <==> Entry(t.ids, k, id);
        }
      }
    }
  }

  lemma {:induction false} GroupFilled(t: Symbols, base: string, alts: Alternatives)
    requires Invariant(t) && Plain(base) && PlainAlternatives(alts)
    ensures Filled(t, EmitItem(t, base, Group(alts)).0, Names(alts))
    decreases alts, 2
  {
    FreshKeeps(t, base);
    NewNameIsMarked(t, base);
    var (t1, id) := Fresh(t, base);
    RuleFilled(t1, base, id, alts);
    EmitRuleKeeps(t1, base, id, alts);
    var u := EmitRule(t1, base, id, alts);
    forall r: nat | |t.ids| <= r && IsSynthesized(u, r)
      ensures RuleOf(u, r) != []
    {
      if r != id {
        assert |t1.ids| <= r;
      }
    }
  }

  lemma {:induction false} SequenceFilled(t: Symbols, base: string, s: Sequence)
    requires Invariant(t) && Plain(base) && PlainSequence(s)
    ensures Filled(t, EmitSequence(t, base, s).0, SequenceNames(s))
    decreases s
  {
    if s.Empty? {
      NothingFilled(t, {});
    } else {
      EmitSequenceKeeps(t, base, s.init);
      SequenceFilled(t, base, s.init);
      var t1 := EmitSequence(t, base, s.init).0;
      EmitItemKeeps(t1, base, s.last);
      ItemFilled(t1, base, s.last);
      FilledTransitive(t, t1, EmitItem(t1, base, s.last).0, SequenceNames(s.init), ItemNames(s.last));
    }
  }

  lemma {:induction false} AlternativesFilled(t: Symbols, base: string, alts: Alternatives)
    requires Invariant(t) && Plain(base) && PlainAlternatives(alts)
    ensures Filled(t, EmitAlternatives(t, base, alts).0, Names(alts))
    decreases alts, 0
  {
    match alts
    case Only(s) => SequenceFilled(t, base, s);
    case Or(init, last) =>
      EmitAlternativesKeeps(t, base, init);
      AlternativesFilled(t, base, init);
      var t1 := EmitAlternatives(t, base, init).0;
      EmitSequenceKeeps(t1, base, last);
      SequenceFilled(t1, base, last);
      FilledTransitive(t, t1, EmitSequence(t1, base, last).0, Names(init), SequenceNames(last));
  }

  lemma {:induction false} RuleFilled(t: Symbols, base: string, id: nat, alts: Alternatives)
    requires Invariant(t) && Plain(base) && PlainAlternatives(alts) && id < |t.ids|
    ensures Filled(t, EmitRule(t, base, id, alts), Names(alts)) && RuleOf(EmitRule(t, base, id, alts), id) != []
    decreases alts, 1
  {
    AlternativesFilled(t, base, alts);
    EmitAlternativesKeeps(t, base, alts);
    var (t1, es) := EmitAlternatives(t, base, alts);
    var rule := es + [End];
    assert rule[..|rule| - 1] == es;
    DefineKeeps(t1, id, rule);
    var u := Define(t1, id, rule);
    forall r: nat | |t.ids| <= r && IsSynthesized(u, r)
      ensures RuleOf(u, r) != []
    {
      assert IsSynthesized(t1, r);
    }
  }

  /** Every synthesised rule has its elements, and every plain name is defined or referred to. */
  ghost predicate Finished(t: Symbols, names: set<string>) {
    && (forall id: nat :: IsSynthesized(t, id) ==> RuleOf(t, id) != [])
    && (forall k, id: nat :: Entry(t.ids, k, id) && Plain(k) ==> k in names)
  }

  function Mentioned(g: Grammar): set<string> {
    if g == [] then {} else Mentioned(g[..|g| - 1]) + {g[|g| - 1].name} + Names(g[|g| - 1].body)
  }

  lemma {:induction false} GrammarFinished(g: Grammar)
    requires PlainGrammar(g)
    ensures Finished(EmitGrammar(g), Mentioned(g))
  {
    if g != [] {
      var rule, before := g[|g| - 1], g[..|g| - 1];
      GrammarFinished(before);
      EmitGrammarKeeps(before);
      var t := EmitGrammar(before);
      InternKeeps(t, rule.name);
      InternFilled(t, rule.name);
      var (t1, id) := Intern(t, rule.name);
      if IsSynthesized(t1, id) {
        SynthesizedIsBelow(t1, id);
        assert false;
      }
      EmitRuleKeeps(t1, rule.name, id, rule.body);
      RuleFilled(t1, rule.name, id, rule.body);
      RuleFinished(t, t1, EmitRule(t1, rule.name, id, rule.body), Mentioned(before), rule, id);
    }
  }

  lemma RuleFinished(t: Symbols, t1: Symbols, u: Symbols, names: set<string>, rule: Rule, id: nat)
    requires Invariant(t) && Invariant(t1) && Invariant(u) && Finished(t, names)
    requires Grows(t, t1) && Filled(t, t1, {rule.name}) && GrowsExcept(t1, u, id) && Preserves(t1, u)
    requires Filled(t1, u, Names(rule.body)) && Entry(t1.ids, rule.name, id)
    ensures Finished(u, names + {rule.name} + Names(rule.body))
  {
    forall r: nat | IsSynthesized(u, r)
      ensures RuleOf(u, r) != []
    {
      if r < |t1.ids| {
        assert HasName(t1.ids, r);
        var k :| Entry(t1.ids, k, r);
        assert Entry(u.ids, k, r);
        var j :| Entry(u.ids, j, r) && !Plain(j);
        assert j == k && IsSynthesized(t1, r);
        if r < |t.ids| {
          SynthesizedBefore(t, t1, r);
        }
      }
    }
  }

  /** Such a grammar is never refused for an undefined rule. */
  lemma DefinedMeansClosed(g: Grammar)
    requires PlainGrammar(g) && DefinesItsNames(g)
    ensures Closed(EmitGrammar(g))
  {
    GrammarFinished(g);
    EmitGrammarKeeps(g);
    BodiesHasNames(g);
    MentionedIsDefined(g, Bodies(g));
    var t := EmitGrammar(g);
    forall i, j | 0 <= i < |t.rules| && 0 <= j < |t.rules[i]| && t.rules[i][j].RuleRef?
      ensures RuleOf(t, t.rules[i][j].id) != []
    {
      var id := t.rules[i][j].id;
      assert RuleFits(t, i);
      assert HasName(t.ids, id);
      var k :| Entry(t.ids, k, id);
      if Plain(k) {
        assert Defined(t, Bodies(g), k, id);
      } else {
        assert IsSynthesized(t, id);
      }
    }
  }

  lemma {:induction false} MentionedIsDefined(g: Grammar, bodies: map<string, Alternatives>)
    requires forall i :: 0 <= i < |g| ==> g[i].name in bodies && Names(g[i].body) <= bodies.Keys
    ensures Mentioned(g) <= bodies.Keys
  {
    if g != [] {
      MentionedIsDefined(g[..|g| - 1], bodies);
    }
  }

  lemma {:induction false} BodiesHasNames(g: Grammar)
    ensures forall i :: 0 <= i < |g| ==> g[i].name in Bodies(g)
  {
    if g != [] {
      BodiesHasNames(g[..|g| - 1]);
      assert forall i :: 0 <= i < |g| - 1 ==> g[i] == g[..|g| - 1][i];
    }
  }

  /** The whole front end: the text of a grammar parses to rules that generate exactly its language. */
  lemma PrintedGrammarCompiles(g: Grammar, name: string, w: Word)
    requires PrintableGrammar(g) && DefinesItsNames(g) && name in Bodies(g)
    ensures Read(ShowGrammar(g)) == Some(g)
    ensures name in Compile(ShowGrammar(g)).ids
    ensures Generated(Compile(ShowGrammar(g)), Compile(ShowGrammar(g)).ids[name], w) <==> InLanguage(Bodies(g), name, w)
  {
    RoundTrip(g);
    ReadPlain(ShowGrammar(g));
    DefinedMeansClosed(g);
    CompiledLanguage(ShowGrammar(g), name, w);
  }
}
