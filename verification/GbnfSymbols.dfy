/** The invariant of the symbol table and rules at every point of a parse. */
module GbnfSymbols {
  import opened Decimals
  import opened GbnfSyntax
  import opened GbnfLexer
  import opened GbnfReader
  import opened GbnfCompiler

  /** Parsed names are made of word characters, and '_' is not one of them. */
  predicate Plain(name: string) {
    '_' !in name
  }

  /** Name `k` has number `id`. */
  ghost predicate Entry(ids: map<string, nat>, k: string, id: nat) {
    k in ids && ids[k] == id
  }

  /** `ids` is a bijection onto the numbers below its size. */
  ghost predicate Bijective(ids: map<string, nat>) {
    && (forall k, id: nat :: Entry(ids, k, id) ==> id < |ids|)
    && (forall k, l, id: nat :: Entry(ids, k, id) && Entry(ids, l, id) ==> k == l)
    && (forall id: nat :: id < |ids| ==> HasName(ids, id))
  }

  ghost predicate HasName(ids: map<string, nat>, id: nat) {
    exists k :: Entry(ids, k, id)
  }

  ghost predicate IsSynthesizedName(name: string, id: nat) {
    exists base :: Plain(base) && name == SynthesizedName(base, id)
  }

  ghost predicate ProperNames(ids: map<string, nat>) {
    forall k, id: nat :: Entry(ids, k, id) ==> Plain(k) || IsSynthesizedName(k, id)
  }

  predicate RefsBelow(es: Elements, n: nat) {
    forall i :: 0 <= i < |es| && es[i].RuleRef? ==> es[i].id < n
  }

  /** Either undefined, or a stream whose only END is its last element. */
  predicate WellFormedRule(es: Elements) {
    es == [] || (es[|es| - 1] == End && End !in es[..|es| - 1])
  }

  predicate RuleFits(t: Symbols, r: nat) {
    WellFormedRule(RuleOf(t, r)) && RefsBelow(RuleOf(t, r), |t.ids|)
  }

  ghost predicate Invariant(t: Symbols) {
    && Bijective(t.ids)
    && ProperNames(t.ids)
    && |t.rules| <= |t.ids|
    && forall r: nat :: RuleFits(t, r)
  }

  /** Nothing known about the earlier ids changes, and no name of the text gets a rule. */
  ghost predicate Grows(t: Symbols, u: Symbols) {
    && |t.ids| <= |u.ids|
    && (forall k, id: nat :: Entry(t.ids, k, id) ==> Entry(u.ids, k, id))
    && (forall r: nat :: r < |t.ids| ==> RuleOf(u, r) == RuleOf(t, r))
    && (forall k, id: nat :: Entry(u.ids, k, id) && Plain(k) && id >= |t.ids| ==> RuleOf(u, id) == [])
  }

  /** The same, but for the one rule being defined. */
  ghost predicate GrowsExcept(t: Symbols, u: Symbols, id: nat) {
    && |t.ids| <= |u.ids|
    && (forall k, i: nat :: Entry(t.ids, k, i) ==> Entry(u.ids, k, i))
    && (forall r: nat :: r < |t.ids| && r != id ==> RuleOf(u, r) == RuleOf(t, r))
    && (forall k, i: nat :: Entry(u.ids, k, i) && Plain(k) && i >= |t.ids| ==> RuleOf(u, i) == [])
  }

  lemma SynthesizedNameInjective(base: string, m: nat, other: string, n: nat)
    requires Plain(base) && Plain(other) && SynthesizedName(base, m) == SynthesizedName(other, n)
    ensures base == other && m == n
  {
    var s := SynthesizedName(base, m);
    assert s[|base|] == '_' && s[|other|] == '_';
    assert forall i :: 0 <= i < |base| ==> s[i] == base[i];
    assert forall i :: 0 <= i < |Decimal(m)| ==> s[|base| + 1 + i] == Decimal(m)[i];
    assert |other| == |base|;
    assert base == s[..|base|] == other;
    assert Decimal(m) == s[|base| + 1..] == Decimal(n);
    DecimalInjective(m, n);
  }

  lemma SynthesizedNameIsMarked(base: string, id: nat)
    ensures !Plain(SynthesizedName(base, id))
  {
    assert SynthesizedName(base, id)[|base|] == '_';
  }

  /** A generated name never collides with a name already in the table. */
  lemma FreshNameIsNew(t: Symbols, base: string)
    requires Invariant(t) && Plain(base)
    ensures SynthesizedName(base, |t.ids|) !in t.ids
  {
    var name := SynthesizedName(base, |t.ids|);
    SynthesizedNameIsMarked(base, |t.ids|);
    if name in t.ids {
      assert Entry(t.ids, name, t.ids[name]);
      var other :| Plain(other) && name == SynthesizedName(other, t.ids[name]);
      SynthesizedNameInjective(base, |t.ids|, other, t.ids[name]);
      assert false;
    }
  }

  lemma EnterKeepsBijective(ids: map<string, nat>, name: string)
    requires Bijective(ids) && name !in ids
    ensures var more := ids[name := |ids|];
      && Bijective(more) && |more| == |ids| + 1
      && forall k, id: nat :: Entry(more, k, id) <==> Entry(ids, k, id) || (k == name && id == |ids|)
  {
    var more := ids[name := |ids|];
    assert more.Keys == ids.Keys + {name};
    assert |more.Keys| == |ids.Keys| + 1;
    assert forall k, id: nat :: Entry(more, k, id) <==> Entry(ids, k, id) || (k == name && id == |ids|);
    forall id: nat | id < |more|
      ensures HasName(more, id)
    {
      if id < |ids| {
        assert HasName(ids, id);
        var k :| Entry(ids, k, id);
        assert Entry(more, k, id);
      } else {
        assert Entry(more, name, id);
      }
    }
  }

  lemma FreshKeeps(t: Symbols, base: string)
    requires Invariant(t) && Plain(base)
    ensures var (u, id) := Fresh(t, base);
      Invariant(u) && Grows(t, u) && id == |t.ids| && |u.ids| == id + 1 && IsSynthesized(u, id) && RuleOf(u, id) == []
  {
    var name := SynthesizedName(base, |t.ids|);
    FreshNameIsNew(t, base);
    EnterKeepsBijective(t.ids, name);
    SynthesizedNameIsMarked(base, |t.ids|);
    var u := Fresh(t, base).0;
    assert IsSynthesizedName(name, |t.ids|);
    assert Entry(u.ids, name, |t.ids|);
    RulesUntouched(t, u);
  }

  lemma InternKeeps(t: Symbols, name: string)
    requires Invariant(t) && Plain(name)
    ensures var (u, id) := Intern(t, name);
      Invariant(u) && Grows(t, u) && id < |u.ids| && Entry(u.ids, name, id) &&
      (|u.ids| == |t.ids| || (|u.ids| == |t.ids| + 1 && id == |t.ids|))
  {
    var u := Intern(t, name).0;
    if name !in t.ids {
      EnterKeepsBijective(t.ids, name);
      RulesUntouched(t, u);
      assert Entry(u.ids, name, |t.ids|);
    } else {
      assert Entry(t.ids, name, t.ids[name]);
    }
  }

  lemma RulesUntouched(t: Symbols, u: Symbols)
    requires Invariant(t) && u.rules == t.rules && |t.ids| <= |u.ids|
    ensures forall r: nat :: RuleOf(u, r) == RuleOf(t, r)
    ensures forall r: nat :: RuleFits(u, r)
    ensures forall r: nat :: r >= |t.ids| ==> RuleOf(u, r) == []
  {
    forall r: nat
      ensures RuleFits(u, r)
    {
      assert RuleFits(t, r);
    }
  }

  lemma SynthesizedBefore(t: Symbols, u: Symbols, id: nat)
    requires Invariant(t) && Invariant(u) && Grows(t, u) && id < |t.ids| && IsSynthesized(u, id)
    ensures IsSynthesized(t, id)
  {
    assert HasName(t.ids, id);
    var k :| Entry(t.ids, k, id);
    assert Entry(u.ids, k, id);
    var j :| Entry(u.ids, j, id) && !Plain(j);
    assert j == k;
  }

  lemma GrowsSelf(t: Symbols)
    requires Invariant(t)
    ensures Grows(t, t)
  {
  }

  lemma GrowsTransitive(t: Symbols, u: Symbols, v: Symbols)
    requires Grows(t, u) && Grows(u, v) && Bijective(u.ids)
    requires Bijective(v.ids)
    ensures Grows(t, v)
  {
    forall k, id: nat | Entry(v.ids, k, id) && Plain(k) && id >= |t.ids|
      ensures RuleOf(v, id) == []
    {
      if id < |u.ids| {
        assert HasName(u.ids, id);
        var l :| Entry(u.ids, l, id);
        assert Entry(v.ids, l, id);
      }
    }
  }

  lemma DefineKeeps(t: Symbols, id: nat, rule: Elements)
    requires Invariant(t) && id < |t.ids| && WellFormedRule(rule) && RefsBelow(rule, |t.ids|)
    ensures var u := Define(t, id, rule);
      && Invariant(u) && u.ids == t.ids && RuleOf(u, id) == rule
      && forall r: nat :: r != id ==> RuleOf(u, r) == RuleOf(t, r)
  {
    var u := Define(t, id, rule);
    forall r: nat
      ensures RuleOf(u, r) == if r == id then rule else RuleOf(t, r)
      ensures RuleFits(u, r)
    {
      assert RuleFits(t, r);
    }
  }

  /** The id belongs to a rule that the parser made up, not to a name of the text. */
  ghost predicate IsSynthesized(t: Symbols, id: nat) {
    exists k :: Entry(t.ids, k, id) && !Plain(k)
  }

  lemma SynthesizedIsBelow(t: Symbols, id: nat)
    requires Invariant(t) && IsSynthesized(t, id)
    ensures id < |t.ids|
    ensures forall k :: Plain(k) ==> !Entry(t.ids, k, id)
  {
  }

  // ----- the text only contributes plain names

  predicate PlainItem(item: Item)
    decreases item
  {
    match item
    case Ref(name) => Plain(name)
    case Group(alts) => PlainAlternatives(alts)
    case Repeat(body, _) => PlainItem(body)
    case _ => true
  }

  predicate PlainSequence(s: Sequence)
    decreases s
  {
    s.Snoc? ==> PlainSequence(s.init) && PlainItem(s.last)
  }

  predicate PlainAlternatives(alts: Alternatives)
    decreases alts
  {
    match alts
    case Only(s) => PlainSequence(s)
    case Or(init, last) => PlainAlternatives(init) && PlainSequence(last)
  }

  predicate PlainGrammar(g: Grammar) {
    forall i :: 0 <= i < |g| ==> Plain(g[i].name) && PlainAlternatives(g[i].body)
  }

  lemma {:induction false} ReadSequencePlain(s: string, nested: bool, acc: Sequence)
    requires PlainSequence(acc)
    ensures ReadSequence(s, nested, acc).Some? ==> PlainSequence(ReadSequence(s, nested, acc).value.0)
    decreases |s|, 1
  {
    var c := At(s, 0);
    if StartsAtom(c) {
      var r := Atom(s, nested);
      if r.Some? {
        ReadSequencePlain(r.value.1, nested, Snoc(acc, r.value.0));
      }
    } else if c == '(' {
      ReadAlternativesPlain(SkipSpace(s[1..], true), true);
      var r := ReadGroup(s, nested);
      if r.Some? {
        ReadSequencePlain(r.value.1, nested, Snoc(acc, r.value.0));
      }
    } else if StartsOperator(c) {
      var r := Operator(s, nested);
      if r.Some? && acc.Snoc? {
        ReadSequencePlain(r.value.1, nested, Snoc(acc.init, Repeat(acc.last, r.value.0)));
      }
    }
  }

  lemma {:induction false} MoreAlternativesPlain(s: string, nested: bool, acc: Alternatives)
    requires PlainAlternatives(acc)
    ensures MoreAlternatives(s, nested, acc).Some? ==> PlainAlternatives(MoreAlternatives(s, nested, acc).value.0)
    decreases |s|, 2
  {
    if At(s, 0) == '|' {
      ReadSequencePlain(SkipSpace(s[1..], true), nested, Empty);
      var r := ReadSequence(SkipSpace(s[1..], true), nested, Empty);
      if r.Some? {
        MoreAlternativesPlain(r.value.1, nested, Or(acc, r.value.0));
      }
    }
  }

  lemma {:induction false} ReadAlternativesPlain(s: string, nested: bool)
    ensures ReadAlternatives(s, nested).Some? ==> PlainAlternatives(ReadAlternatives(s, nested).value.0)
    decreases |s|, 3
  {
    ReadSequencePlain(s, nested, Empty);
    var r := ReadSequence(s, nested, Empty);
    if r.Some? {
      MoreAlternativesPlain(r.value.1, nested, Only(r.value.0));
    }
  }

  lemma {:induction false} ReadRulesPlain(s: string, acc: Grammar)
    requires PlainGrammar(acc)
    ensures ReadRules(s, acc).Some? ==> PlainGrammar(ReadRules(s, acc).value)
    decreases |s|
  {
    if At(s, 0) != '\0' {
      var r := ReadRule(s);
      if r.Some? {
        var n := PrefixLength(s, IsWordChar);
        ReadAlternativesPlain(SkipSpace(SkipSpace(s[n..], false)[3..], true), false);
        ReadRulesPlain(r.value.1, acc + [r.value.0]);
      }
    }
  }

  lemma ReadPlain(text: string)
    ensures Read(text).Some? ==> PlainGrammar(Read(text).value)
  {
    ReadRulesPlain(SkipSpace(text, true), []);
  }
}
