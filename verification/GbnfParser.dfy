/** The one-pass parser: it reads the text and fills the symbol table and the rules as it goes. */
module GbnfParser {
  import opened Wrappers
  import opened Decimals
  import opened GbnfSyntax
  import opened GbnfLexer
  import opened GbnfReader
  import opened GbnfCompiler
  import opened GbnfMeaning
  import opened GbnfSymbols
  import opened GbnfCorrectness
  import opened GbnfPreservation

  /** A failed step carries no position: the source throws. */
  type Position = Option<string>

  /** Where reading stopped. */
  function Rest<T>(read: Option<(T, string)>): Position {
    if read.None? then None else Some(read.value.1)
  }

  class ParseState {
    var symbolIds: map<string, nat>
    var rules: seq<Elements>

    function Contents(): Symbols
      reads this
    {
      Symbols(symbolIds, rules)
    }

    constructor ()
      ensures Contents() == Symbols(map[], [])
    {
      symbolIds := map[];
      rules := [];
    }

    method GetSymbolId(name: string) returns (id: nat)
      modifies this
      ensures (Contents(), id) == Intern(old(Contents()), name)
    {
      var nextId := |symbolIds|;
      if name !in symbolIds {
        symbolIds := symbolIds[name := nextId];
      }
      id := symbolIds[name];
    }

    method GenerateSymbolId(base: string) returns (id: nat)
      modifies this
      ensures (Contents(), id) == Fresh(old(Contents()), base)
      ensures base + "_" + Decimal(|old(symbolIds)|) in symbolIds && symbolIds[base + "_" + Decimal(|old(symbolIds)|)] == |old(symbolIds)|
    {
      id := |symbolIds|;
      symbolIds := symbolIds[base + "_" + Decimal(id) := id];
    }

    method AddRule(id: nat, rule: Elements)
      modifies this
      ensures Contents() == Define(old(Contents()), id, rule)
    {
      if |rules| <= id {
        rules := rules + seq(id + 1 - |rules|, i => []);
      }
      rules := rules[id := rule];
    }

    /** The synthesised rules for the optional copies; the last one's id, when there is any. */
    method AddOptionalRules(base: string, previous: Elements, op: Repetition) returns (tail: Elements)
      modifies this
      ensures var r := EmitRepeat(old(Contents()), base, previous, op);
        Contents() == r.0 && Copies(previous, Fewest(op)) + tail == r.1
    {
      var maxTimes := op.Max();
      var lastRecRuleId: nat := 0;
      var nOpt := if maxTimes < 0 then 1 else maxTimes - op.Min();
      var i := 0;
      while i < nOpt
        invariant 0 <= i && (i <= nOpt || i == 0)
        invariant maxTimes >= 0 ==>
          Contents() == Chain(old(Contents()), base, previous, i).0 && lastRecRuleId == Chain(old(Contents()), base, previous, i).1
        invariant maxTimes < 0 && i == 0 ==> Contents() == old(Contents())
        invariant maxTimes < 0 && i == 1 ==>
          Contents() == Loop(old(Contents()), base, previous).0 && lastRecRuleId == Loop(old(Contents()), base, previous).1
      {
        var recRule := previous;
        var recRuleId := GenerateSymbolId(base);
        if i > 0 || maxTimes < 0 {
          recRule := recRule + [RuleRef(if maxTimes < 0 then recRuleId else lastRecRuleId)];
        }
        recRule := recRule + [Alt];
        recRule := recRule + [End];
        assert recRule == OptionalRule(previous,
          if i > 0 || maxTimes < 0 then [RuleRef(if maxTimes < 0 then recRuleId else lastRecRuleId)] else []);
        AddRule(recRuleId, recRule);
        lastRecRuleId := recRuleId;
        i := i + 1;
      }
      tail := if nOpt > 0 then [RuleRef(lastRecRuleId)] else [];
    }

    /** Rewrite the elements from `lastSymStart` on; the operator must have something to apply to. */
    method HandleRepetitions(base: string, out: Elements, lastSymStart: nat, op: Repetition)
      returns (ok: bool, result: Elements)
      requires lastSymStart <= |out|
      modifies this
      ensures ok <==> lastSymStart < |out|
      ensures ok ==>
        var r := EmitRepeat(old(Contents()), base, out[lastSymStart..], op);
        Contents() == r.0 && result == out[..lastSymStart] + r.1
    {
      if lastSymStart == |out| {
        return false, out;
      }
      ok := true;
      var previous := out[lastSymStart..];
      result := RepeatMandatory(out[..lastSymStart], previous, op);
      var tail := AddOptionalRules(base, previous, op);
      assert out[..lastSymStart] + Copies(previous, Fewest(op)) + tail
          == out[..lastSymStart] + (Copies(previous, Fewest(op)) + tail);
      result := result + tail;
    }
  }

  /** `head + previous` with the last stretch dropped, kept, or repeated up to the minimum. */
  method RepeatMandatory(head: Elements, previous: Elements, op: Repetition) returns (result: Elements)
    ensures result == head + Copies(previous, Fewest(op))
  {
    if op.Min() == 0 {
      return head;
    }
    result := head + previous;
    assert Copies(previous, 1) == previous;
    var i := 1;
    while i < op.Min()
      invariant 1 <= i && (i <= op.Min() || i == 1)
      invariant result == head + Copies(previous, i)
    {
      assert head + Copies(previous, i) + previous == head + Copies(previous, i + 1);
      result := result + previous;
      i := i + 1;
    }
  }

  method ParseLiteral(src: string, out: Elements) returns (pos: Position, result: Elements)
    ensures pos == Rest(LiteralChars(src, []))
    ensures pos.Some? ==> result == out + LiteralElements(LiteralChars(src, []).value.0)
  {
    var p := src;
    result := out;
    ghost var chars := [];
    while At(p, 0) != '"'
      invariant LiteralChars(src, []) == LiteralChars(p, chars)
      invariant result == out + LiteralElements(chars)
      decreases |p|
    {
      var c := ParseChar(p);
      if c.None? {
        return None, out;
      }
      result := result + [Char(c.value.0)];
      assert LiteralElements(chars + [c.value.0]) == LiteralElements(chars) + [Char(c.value.0)];
      chars := chars + [c.value.0];
      p := c.value.1;
    }
    pos := Some(p[1..]);
  }

  method ParseClassPart(src: string, first: bool, negated: bool) returns (pos: Position, added: Elements)
    ensures pos == Rest(ClassPart(src))
    ensures pos.Some? ==> added == PartElements(ClassPart(src).value.0, first, negated)
  {
    var lo := ParseChar(src);
    if lo.None? {
      return None, [];
    }
    var p := lo.value.1;
    added := [if !first then CharAlt(lo.value.0) else if negated then CharNot(lo.value.0) else Char(lo.value.0)];
    if At(p, 0) == '-' && At(p, 1) != ']' {
      var hi := ParseChar(p[1..]);
      if hi.None? {
        return None, [];
      }
      p := hi.value.1;
      added := added + [CharRngUpper(hi.value.0)];
    }
    pos := Some(p);
  }

  lemma ClassElementsSnoc(out: Elements, negated: bool, parts: seq<Part>, part: Part)
    ensures out + ClassElements(negated, parts) + PartElements(part, parts == [], negated) ==
      out + ClassElements(negated, parts + [part])
    ensures ClassElements(negated, parts + [part]) != []
  {
    assert (parts + [part])[..|parts|] == parts;
  }

  method ParseClass(src: string, negated: bool, out: Elements) returns (pos: Position, result: Elements)
    ensures pos == Rest(ClassParts(src, []))
    ensures pos.Some? ==> result == out + ClassElements(negated, ClassParts(src, []).value.0)
  {
    var p := src;
    result := out;
    ghost var parts := [];
    while At(p, 0) != ']'
      invariant ClassParts(src, []) == ClassParts(p, parts)
      invariant result == out + ClassElements(negated, parts)
      invariant |result| == |out| <==> parts == []
      decreases |p|
    {
      var q, added := ParseClassPart(p, |result| == |out|, negated);
      if q.None? {
        return None, out;
      }
      ghost var part := ClassPart(p).value.0;
      ClassElementsSnoc(out, negated, parts, part);
      result := result + added;
      parts := parts + [part];
      p := q.value;
    }
    pos := Some(p[1..]);
  }

  /** `{m}`, `{m,}` and `{m,n}`, after the opening brace has been seen. */
  method ParseBraces(src: string, nested: bool) returns (r: Option<(Repetition, string)>)
    requires At(src, 0) == '{'
    ensures r == Braces(src, nested)
  {
    var pos := ParseSpace(src[1..], nested);
    var m := ParseBound(pos);
    if m.None? {
      return None;
    }
    pos := ParseSpace(m.value.1, nested);
    if At(pos, 0) == '}' {
      pos := ParseSpace(pos[1..], nested);
      return Some((Exactly(m.value.0), pos));
    }
    if At(pos, 0) != ',' {
      return None;
    }
    pos := ParseSpace(pos[1..], nested);
    var op := AtLeast(m.value.0);
    if IsDigit(At(pos, 0)) {
      var n := ParseBound(pos);
      if n.None? {
        return None;
      }
      op := Between(m.value.0, n.value.0);
      pos := ParseSpace(n.value.1, nested);
    }
    if At(pos, 0) != '}' {
      return None;
    }
    pos := ParseSpace(pos[1..], nested);
    r := Some((op, pos));
  }

  /** Append one atom's elements, then skip blanks. */
  method ParseAtom(state: ParseState, src: string, base: string, out: Elements, nested: bool)
    returns (pos: Position, result: Elements)
    requires StartsAtom(At(src, 0))
    modifies state
    ensures match Atom(src, nested)
      case None => pos.None?
      case Some((item, rest)) =>
        var r := EmitItem(old(state.Contents()), base, item);
        pos == Some(rest) && state.Contents() == r.0 && result == out + r.1
  {
    var c := At(src, 0);
    if c == '"' {
      pos, result := ParseLiteral(src[1..], out);
    } else if c == '[' {
      var negated := At(src, 1) == '^';
      pos, result := ParseClass(if negated then src[2..] else src[1..], negated, out);
    } else if IsWordChar(c) {
      var n := WordEnd(src);
      var id := state.GetSymbolId(src[..n]);
      pos, result := Some(src[n..]), out + [RuleRef(id)];
    } else {
      pos, result := Some(src[1..]), out + [CharAny];
    }
    if pos.Some? {
      var after := ParseSpace(pos.value, nested);
      pos := Some(after);
    }
  }

  method ParseOperator(src: string, nested: bool) returns (r: Option<(Repetition, string)>)
    requires StartsOperator(At(src, 0))
    ensures r == Operator(src, nested)
  {
    if At(src, 0) == '{' {
      r := ParseBraces(src, nested);
    } else {
      var op := if At(src, 0) == '*' then Star else if At(src, 0) == '+' then Plus else Maybe;
      var p := ParseSpace(src[1..], nested);
      r := Some((op, p));
    }
  }

  /** A parenthesised group, parsed into a rule of its own. */
  method ParseGroup(state: ParseState, src: string, base: string, nested: bool) returns (pos: Position, subRuleId: nat)
    requires At(src, 0) == '('
    modifies state
    ensures match ReadGroup(src, nested)
      case None => pos.None?
      case Some((item, rest)) =>
        var r := EmitItem(old(state.Contents()), base, item);
        pos == Some(rest) && state.Contents() == r.0 && r.1 == [RuleRef(subRuleId)]
    decreases |src|, 0
  {
    var p := ParseSpace(src[1..], true);
    subRuleId := state.GenerateSymbolId(base);
    pos := ParseAlternates(state, p, base, subRuleId, true);
    if pos.None? || At(pos.value, 0) != ')' {
      return None, subRuleId;
    }
    p := ParseSpace(pos.value[1..], nested);
    pos := Some(p);
  }

  method ParseSequence(state: ParseState, src: string, base: string, outElements: Elements, nested: bool)
    returns (pos: Position, out: Elements)
    modifies state
    ensures match ReadSequence(src, nested, Empty)
      case None => pos.None?
      case Some((s, rest)) =>
        var r := EmitSequence(old(state.Contents()), base, s);
        pos == Some(rest) && state.Contents() == r.0 && out == outElements + r.1
    decreases |src|, 1
  {
    ghost var t := state.Contents();
    out := outElements;
    var lastSymStart: nat := |out|;
    var p := src;
    ghost var read := Empty;
    while At(p, 0) != '\0'
      invariant |p| <= |src|
      invariant ReadSequence(src, nested, Empty) == ReadSequence(p, nested, read)
      invariant Emitted(t, base, read, state.Contents(), outElements, out, lastSymStart)
      decreases |p|
    {
      ghost var here, soFar := p, state.Contents();
      if StartsAtom(At(p, 0)) {
        var q, result := ParseAtom(state, p, base, out, nested);
        if q.None? {
          return None, outElements;
        }
        ghost var item := Atom(here, nested).value.0;
        EmittedItem(t, base, read, soFar, outElements, out, lastSymStart, item);
        lastSymStart, out, p, read := |out|, result, q.value, Snoc(read, item);
      } else if At(p, 0) == '(' {
        var q, subRuleId := ParseGroup(state, p, base, nested);
        if q.None? {
          return None, outElements;
        }
        ghost var group := ReadGroup(here, nested).value.0;
        EmittedItem(t, base, read, soFar, outElements, out, lastSymStart, group);
        lastSymStart, out, p, read := |out|, out + [RuleRef(subRuleId)], q.value, Snoc(read, group);
      } else if StartsOperator(At(p, 0)) {
        var q := ParseOperator(p, nested);
        if q.None? {
          return None, outElements;
        }
        p := q.value.1;
        EmittedLast(t, base, read, soFar, outElements, out, lastSymStart);
        var ok, result := state.HandleRepetitions(base, out, lastSymStart, q.value.0);
        if !ok {
          return None, outElements;
        }
        EmittedRepeat(t, base, read, soFar, outElements, out, lastSymStart, q.value.0);
        out, read := result, Snoc(read.init, Repeat(read.last, q.value.0));
      } else {
        break;
      }
    }
    pos := Some(p);
  }

  /** Where a sequence stands after `read`: `t` has become `now`, and `lastSymStart` marks the last item's elements. */
  ghost predicate Emitted(t: Symbols, base: string, read: Sequence, now: Symbols,
                          before: Elements, out: Elements, lastSymStart: nat)
  {
    && now == EmitSequence(t, base, read).0
    && out == before + EmitSequence(t, base, read).1
    && match read
       case Empty => lastSymStart == |out|
       case Snoc(init, last) => Sound(last) && lastSymStart == |before| + |EmitSequence(t, base, init).1|
  }

  lemma EmittedItem(t: Symbols, base: string, read: Sequence, now: Symbols,
                    before: Elements, out: Elements, lastSymStart: nat, item: Item)
    requires Emitted(t, base, read, now, before, out, lastSymStart) && !item.Repeat?
    ensures var r := EmitItem(now, base, item);
      Emitted(t, base, Snoc(read, item), r.0, before, out + r.1, |out|)
  {
    var es := EmitSequence(t, base, read).1;
    var es' := EmitItem(now, base, item).1;
    assert before + es + es' == before + (es + es');
  }

  /** What an operator is applied to. */
  lemma EmittedLast(t: Symbols, base: string, read: Sequence, now: Symbols,
                    before: Elements, out: Elements, lastSymStart: nat)
    requires Emitted(t, base, read, now, before, out, lastSymStart)
    ensures lastSymStart <= |out|
    ensures lastSymStart < |out| <==> read.Snoc? && !Silent(read.last)
    ensures read.Snoc? ==>
      out[..lastSymStart] == before + EmitSequence(t, base, read.init).1 &&
      out[lastSymStart..] == EmitItem(EmitSequence(t, base, read.init).0, base, read.last).1
  {
    if read.Snoc? {
      SilentIffNothing(EmitSequence(t, base, read.init).0, base, read.last);
    }
  }

  lemma EmittedRepeat(t: Symbols, base: string, read: Sequence, now: Symbols,
                      before: Elements, out: Elements, lastSymStart: nat, op: Repetition)
    requires Emitted(t, base, read, now, before, out, lastSymStart)
    requires read.Snoc? && !Silent(read.last) && lastSymStart <= |out|
    ensures var r := EmitRepeat(now, base, out[lastSymStart..], op);
      Emitted(t, base, Snoc(read.init, Repeat(read.last, op)), r.0, before, out[..lastSymStart] + r.1, lastSymStart)
  {
    EmittedLast(t, base, read, now, before, out, lastSymStart);
    var head := EmitSequence(t, base, read.init).1;
    var es := EmitRepeat(now, base, out[lastSymStart..], op).1;
    assert before + head + es == before + (head + es);
  }

  method ParseAlternates(state: ParseState, src: string, base: string, ruleId: nat, nested: bool)
    returns (pos: Position)
    modifies state
    ensures match ReadAlternatives(src, nested)
      case None => pos.None?
      case Some((alts, rest)) =>
        pos == Some(rest) && state.Contents() == EmitRule(old(state.Contents()), base, ruleId, alts)
    decreases |src|, 2
  {
    ghost var t := state.Contents();
    var rule;
    pos, rule := ParseSequence(state, src, base, [], nested);
    if pos.None? {
      return;
    }
    ghost var alts := Only(ReadSequence(src, nested, Empty).value.0);
    while At(pos.value, 0) == '|'
      invariant pos.Some? && |pos.value| <= |src|
      invariant ReadAlternatives(src, nested) == MoreAlternatives(pos.value, nested, alts)
      invariant state.Contents() == EmitAlternatives(t, base, alts).0 && rule == EmitAlternatives(t, base, alts).1
      decreases |pos.value|
    {
      ghost var body := rule;
      rule := rule + [Alt];
      var p := ParseSpace(pos.value[1..], true);
      pos, rule := ParseSequence(state, p, base, rule, nested);
      if pos.None? {
        return;
      }
      alts := Or(alts, ReadSequence(p, nested, Empty).value.0);
    }
    rule := rule + [End];
    state.AddRule(ruleId, rule);
  }

  method ParseRule(state: ParseState, src: string) returns (pos: Position)
    modifies state
    ensures match ReadRule(src)
      case None => pos.None?
      case Some((rule, rest)) =>
        var r := Intern(old(state.Contents()), rule.name);
        pos == Some(rest) && state.Contents() == EmitRule(r.0, rule.name, r.1, rule.body)
  {
    var n := WordEnd(src);
    if n == 0 {
      return None;
    }
    var sign := ParseSpace(src[n..], false);
    var ruleId := state.GetSymbolId(src[..n]);
    if !(At(sign, 0) == ':' && At(sign, 1) == ':' && At(sign, 2) == '=') {
      return None;
    }
    var p := ParseSpace(sign[3..], true);
    pos := ParseAlternates(state, p, src[..n], ruleId, false);
    if pos.None? {
      return;
    }
    p := pos.value;
    if At(p, 0) == '\r' {
      p := if At(p, 1) == '\n' then p[2..] else p[1..];
    } else if At(p, 0) == '\n' {
      p := p[1..];
    } else if At(p, 0) != '\0' {
      return None;
    }
    p := ParseSpace(p, true);
    pos := Some(p);
  }

  /** What a sequence can end in: no operator has been applied to an item that emits nothing. */
  predicate Sound(item: Item) {
    item.Repeat? ==> !Silent(item.body) && Sound(item.body)
  }

  lemma {:induction false} SilentIffNothing(t: Symbols, base: string, item: Item)
    requires Sound(item)
    ensures EmitItem(t, base, item).1 == [] <==> Silent(item)
  {
    if item.Repeat? {
      SilentIffNothing(t, base, item.body);
      var es := EmitItem(t, base, item.body).1;
      assert Fewest(item.op) > 0 ==> Copies(es, Fewest(item.op)) != [];
    }
  }

  /** What a text compiles to: nothing when it is malformed or refers to a rule it does not define. */
  function Compile(text: string): Symbols {
    match Read(text)
    case None => Symbols(map[], [])
    case Some(g) => if Closed(EmitGrammar(g)) then EmitGrammar(g) else Symbols(map[], [])
  }

  method ParseRules(src: string) returns (state: ParseState, ok: bool)
    ensures fresh(state)
    ensures ok <==> Read(src).Some?
    ensures ok ==> state.Contents() == EmitGrammar(Read(src).value)
  {
    state := new ParseState();
    var pos := ParseSpace(src, true);
    ghost var read := [];
    while At(pos, 0) != '\0'
      invariant fresh(state)
      invariant Read(src) == ReadRules(pos, read)
      invariant state.Contents() == EmitGrammar(read)
      decreases |pos|
    {
      var next := ParseRule(state, pos);
      if next.None? {
        return state, false;
      }
      ghost var rule := ReadRule(pos).value.0;
      assert (read + [rule])[..|read|] == read;
      pos, read := next.value, read + [rule];
    }
    ok := true;
  }

  /** Look through the symbol table for the name to report. */
  method FindName(state: ParseState, id: nat) returns (found: bool)
    ensures found <==> HasName(state.symbolIds, id)
  {
    var names := state.symbolIds.Keys;
    while names != {}
      invariant names <= state.symbolIds.Keys
      invariant forall k :: k in state.symbolIds && k !in names ==> !Entry(state.symbolIds, k, id)
      decreases |names|
    {
      var k :| k in names;
      if state.symbolIds[k] == id {
        assert Entry(state.symbolIds, k, id);
        return true;
      }
      names := names - {k};
    }
    found := false;
  }

  /** The pass over all elements after parsing; it reports the first undefined rule it can put a name to. */
  method AllDefined(state: ParseState) returns (ok: bool)
    requires Invariant(state.Contents())
    ensures ok <==> Closed(state.Contents())
  {
    var i := 0;
    while i < |state.rules|
      invariant 0 <= i <= |state.rules|
      invariant RefsDefined(state.Contents(), i, 0)
    {
      var j := 0;
      while j < |state.rules[i]|
        invariant 0 <= j <= |state.rules[i]|
        invariant RefsDefined(state.Contents(), i, j)
      {
        var elem := state.rules[i][j];
        if elem.RuleRef? && (elem.id >= |state.rules| || state.rules[elem.id] == []) {
          var named := FindName(state, elem.id);
          assert RuleFits(state.Contents(), i);
          if named {
            return false;
          }
          assert false;
        }
        j := j + 1;
      }
      i := i + 1;
    }
    ok := true;
  }

  /** Every reference in the first `i` rules, and in the first `j` elements of the next, is defined. */
  predicate RefsDefined(t: Symbols, i: nat, j: nat) {
    forall r, k :: 0 <= r < |t.rules| && 0 <= k < |t.rules[r]| && (r < i || (r == i && k < j)) && t.rules[r][k].RuleRef? ==>
      RuleOf(t, t.rules[r][k].id) != []
  }

  method Parse(src: string) returns (state: ParseState)
    ensures fresh(state) && state.Contents() == Compile(src)
  {
    var ok;
    state, ok := ParseRules(src);
    if ok {
      ReadPlain(src);
      EmitGrammarKeeps(Read(src).value);
      ok := AllDefined(state);
    }
    if !ok {
      state := new ParseState();
    }
  }

  /** A compiled text is closed, its numbering is a bijection, and each of its rules ends in its only END. */
  lemma CompiledTableIsSound(text: string)
    ensures Invariant(Compile(text)) && Closed(Compile(text))
    ensures var rules := Compile(text).rules;
      forall i, j :: 0 <= i < |rules| && 0 <= j < |rules[i]| && rules[i][j].RuleRef? ==> rules[i][j].id < |rules| && rules[rules[i][j].id] != []
  {
    ReadPlain(text);
    var empty := Symbols(map[], []);
    assert forall r: nat :: RuleFits(empty, r);
    assert Invariant(empty);
    if Read(text).Some? {
      EmitGrammarKeeps(Read(text).value);
    }
  }

  lemma {:induction false} BodiesArePlain(g: Grammar)
    requires PlainGrammar(g)
    ensures forall name :: name in Bodies(g) ==> PlainAlternatives(Bodies(g)[name])
  {
    if g != [] {
      BodiesArePlain(g[..|g| - 1]);
    }
  }

  /** Whenever a text compiles, each rule it defines generates exactly the language its definition denotes. */
  lemma CompiledLanguage(text: string, name: string, w: Word)
    requires Read(text).Some? && Closed(EmitGrammar(Read(text).value)) && name in Bodies(Read(text).value)
    ensures name in Compile(text).ids
    ensures Generated(Compile(text), Compile(text).ids[name], w) <==> InLanguage(Bodies(Read(text).value), name, w)
  {
    var g := Read(text).value;
    ReadPlain(text);
    EmitGrammarKeeps(g);
    BodiesArePlain(g);
    LanguagePreserved(EmitGrammar(g), Bodies(g), name, w);
  }
}
