/** What the parser emits for a grammar: symbol numbering and element streams, as functions of the syntax. */
module GbnfCompiler {
  import opened Decimals
  import opened GbnfSyntax

  /** The contents of a `parse_state`. */
  datatype Symbols = Symbols(ids: map<string, nat>, rules: seq<Elements>)

  function SynthesizedName(base: string, id: nat): string {
    base + "_" + Decimal(id)
  }

  function Intern(t: Symbols, name: string): (r: (Symbols, nat)) {
    if name in t.ids then (t, t.ids[name]) else (t.(ids := t.ids[name := |t.ids|]), |t.ids|)
  }

  function Fresh(t: Symbols, base: string): (r: (Symbols, nat)) {
    (t.(ids := t.ids[SynthesizedName(base, |t.ids|) := |t.ids|]), |t.ids|)
  }

  function Resized(rules: seq<Elements>, n: nat): seq<Elements> {
    if |rules| < n then rules + seq(n - |rules|, i => []) else rules
  }

  function Define(t: Symbols, id: nat, rule: Elements): Symbols {
    t.(rules := Resized(t.rules, id + 1)[id := rule])
  }

  /** `n` copies of a stretch of elements, one after the other. */
  function Copies(es: Elements, n: nat): (r: Elements)
    ensures |r| == n * |es|
  {
    if n == 0 then [] else Copies(es, n - 1) + es
  }

  function LiteralElements(chars: Word): (es: Elements)
    ensures |es| == |chars|
  {
    seq(|chars|, i requires 0 <= i < |chars| => Char(chars[i]))
  }

  function PartElements(part: Part, first: bool, negated: bool): (es: Elements)
    ensures es != []
  {
    var lo := match part case Single(c) => c case Span(lo, _) => lo;
    var head := if !first then CharAlt(lo) else if negated then CharNot(lo) else Char(lo);
    match part
    case Single(_) => [head]
    case Span(_, hi) => [head, CharRngUpper(hi)]
  }

  function ClassElements(negated: bool, parts: seq<Part>): (es: Elements)
    ensures es == [] <==> parts == []
  {
    if parts == [] then []
    else ClassElements(negated, parts[..|parts| - 1]) + PartElements(parts[|parts| - 1], |parts| == 1, negated)
  }

  /** The rule synthesised for "at most `n`" (or, unbounded, "any number of") copies; S' in the source's comment. */
  function OptionalRule(es: Elements, tail: Elements): Elements {
    es + tail + [Alt, End]
  }

  /** The chain of rules for up to `n` more copies; the result is the last rule of the chain. */
  function Chain(t: Symbols, base: string, es: Elements, n: nat): (r: (Symbols, nat)) {
    if n == 0 then (t, 0)
    else
      var (t1, previous) := Chain(t, base, es, n - 1);
      var (t2, id) := Fresh(t1, base);
      (Define(t2, id, OptionalRule(es, if n > 1 then [RuleRef(previous)] else [])), id)
  }

  function Loop(t: Symbols, base: string, es: Elements): (r: (Symbols, nat)) {
    var (t1, id) := Fresh(t, base);
    (Define(t1, id, OptionalRule(es, [RuleRef(id)])), id)
  }

  function EmitRepeat(t: Symbols, base: string, es: Elements, op: Repetition): (r: (Symbols, Elements)) {
    var copies := Copies(es, Fewest(op));
    match Extra(op)
    case None => var (t1, id) := Loop(t, base, es); (t1, copies + [RuleRef(id)])
    case Some(n) =>
      if n == 0 then (t, copies)
      else var (t1, id) := Chain(t, base, es, n); (t1, copies + [RuleRef(id)])
  }

  function EmitItem(t: Symbols, base: string, item: Item): (r: (Symbols, Elements))
    decreases item
  {
    match item
    case Literal(chars) => (t, LiteralElements(chars))
    case CharClass(negated, parts) => (t, ClassElements(negated, parts))
    case Ref(name) => var (t1, id) := Intern(t, name); (t1, [RuleRef(id)])
    case AnyChar => (t, [CharAny])
    case Group(alts) =>
      var (t1, id) := Fresh(t, base);
      (EmitRule(t1, base, id, alts), [RuleRef(id)])
    case Repeat(body, op) =>
      var (t1, es) := EmitItem(t, base, body);
      EmitRepeat(t1, base, es, op)
  }

  function EmitSequence(t: Symbols, base: string, s: Sequence): (r: (Symbols, Elements))
    decreases s
  {
    match s
    case Empty => (t, [])
    case Snoc(init, last) =>
      var (t1, es) := EmitSequence(t, base, init);
      var (t2, es') := EmitItem(t1, base, last);
      (t2, es + es')
  }

  function EmitAlternatives(t: Symbols, base: string, alts: Alternatives): (r: (Symbols, Elements))
    decreases alts, 0
  {
    match alts
    case Only(s) => EmitSequence(t, base, s)
    case Or(init, last) =>
      var (t1, es) := EmitAlternatives(t, base, init);
      var (t2, es') := EmitSequence(t1, base, last);
      (t2, es + [Alt] + es')
  }

  function EmitRule(t: Symbols, base: string, id: nat, alts: Alternatives): Symbols
    decreases alts, 1
  {
    var (t1, es) := EmitAlternatives(t, base, alts);
    Define(t1, id, es + [End])
  }

  function EmitGrammar(g: Grammar): Symbols {
    if g == [] then Symbols(map[], [])
    else
      var rule := g[|g| - 1];
      var (t, id) := Intern(EmitGrammar(g[..|g| - 1]), rule.name);
      EmitRule(t, rule.name, id, rule.body)
  }

  /** Elements of rule `id`; a rule that was never defined has none. */
  function RuleOf(t: Symbols, id: nat): Elements {
    if id < |t.rules| then t.rules[id] else []
  }

  /** Every reference in every rule leads to a defined rule. */
  predicate Closed(t: Symbols) {
    forall i, j :: 0 <= i < |t.rules| && 0 <= j < |t.rules[i]| && t.rules[i][j].RuleRef? ==>
      RuleOf(t, t.rules[i][j].id) != []
  }
}
