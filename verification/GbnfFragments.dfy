/** Pieces of GBNF text, what they are read as, and how they are put together. */
module GbnfFragments {
  import opened Wrappers
  import opened GbnfSyntax
  import opened GbnfLexer
  import opened GbnfReader
  import opened GbnfMeaning
  import opened GbnfPrinter
  import opened GbnfSymbols
  import opened GbnfParser
  import opened GbnfClosed

  predicate Starts(text: string) {
    text != "" && !IsBlank(text[0], true) && text[0] != '#'
  }

  // ----- what a piece is read as

  ghost predicate ReadsAsItem(text: string, item: Item) {
    Starts(text) && forall rest: string, nested: bool, acc: Sequence :: !IsWordChar(At(rest, 0)) ==>
      ReadSequence(text + rest, nested, acc) == ReadSequence(SkipSpace(rest, nested), nested, Snoc(acc, item))
  }

  ghost predicate ReadsAsSequence(text: string, s: Sequence) {
    (text != "" ==> Starts(text)) && forall rest: string, nested: bool, acc: Sequence :: !IsWordChar(At(rest, 0)) ==>
      ReadSequence(SkipSpace(text + rest, nested), nested, acc) == ReadSequence(SkipSpace(rest, nested), nested, Append(acc, s))
  }

  ghost predicate ReadsAsAlternatives(text: string, alts: Alternatives) {
    Starts(text) && forall rest: string, nested: bool :: EndsSequence(rest, nested) ==>
      ReadAlternatives(SkipSpace(text + rest, true), nested) == MoreAlternatives(SkipSpace(rest, nested), nested, alts)
  }

  lemma StartStays(text: string, rest: string, nested: bool)
    requires Starts(text)
    ensures SkipSpace(text + rest, nested) == text + rest && !IsWordChar(At(" " + text, 0))
  {
    SkipNothing(text + rest, nested);
  }

  lemma {:induction false} AppendAssociates(a: Sequence, b: Sequence, c: Sequence)
    ensures Append(Append(a, b), c) == Append(a, Append(b, c))
    decreases c
  {
    if c.Snoc? {
      AppendAssociates(a, b, c.init);
    }
  }

  lemma NothingIsEmpty()
    ensures ReadsAsSequence("", Empty)
  {
    forall rest: string, nested: bool, acc: Sequence | !IsWordChar(At(rest, 0))
      ensures ReadSequence(SkipSpace("" + rest, nested), nested, acc) == ReadSequence(SkipSpace(rest, nested), nested, Append(acc, Empty))
    {
      assert "" + rest == rest;
    }
  }

  lemma ShownIsItem(item: Item)
    requires PrintableItem(item)
    ensures ReadsAsItem(ShowItem(item), item)
  {
    ItemStart(item, "");
    assert ShowItem(item) + "" == ShowItem(item);
    forall rest: string, nested: bool, acc: Sequence | !IsWordChar(At(rest, 0))
      ensures ReadSequence(ShowItem(item) + rest, nested, acc) == ReadSequence(SkipSpace(rest, nested), nested, Snoc(acc, item))
    {
      ReadShownItem(item, rest, nested, acc);
    }
  }

  /** A literal of one character that is printed as itself. */
  lemma TokenReads(c: nat)
    requires c < 128 && LiteralChar(c) == [c as char]
    ensures ReadsAsItem("\"" + [c as char] + "\"", Literal([c]))
  {
    assert [c][1..] == [] && ShowLiteral([]) == "";
    assert ShowLiteral([c]) == [c as char];
    ShownIsItem(Literal([c]));
  }

  lemma OneItemReads(text: string, item: Item)
    requires ReadsAsItem(text, item)
    ensures ReadsAsSequence(text, Snoc(Empty, item))
  {
    forall rest: string, nested: bool, acc: Sequence | !IsWordChar(At(rest, 0))
      ensures ReadSequence(SkipSpace(text + rest, nested), nested, acc) ==
        ReadSequence(SkipSpace(rest, nested), nested, Append(acc, Snoc(Empty, item)))
    {
      StartStays(text, rest, nested);
      assert Append(acc, Snoc(Empty, item)) == Snoc(Append(acc, Empty), item);
    }
  }

  /** Two pieces with a blank between them. */
  lemma BlankBetween(a: string, b: string, s: Sequence, u: Sequence)
    requires a != "" && ReadsAsSequence(a, s) && ReadsAsSequence(b, u)
    ensures ReadsAsSequence(a + " " + b, Append(s, u))
  {
    forall rest: string, nested: bool, acc: Sequence | !IsWordChar(At(rest, 0))
      ensures ReadSequence(SkipSpace(a + " " + b + rest, nested), nested, acc) ==
        ReadSequence(SkipSpace(rest, nested), nested, Append(acc, Append(s, u)))
    {
      var after := " " + (b + rest);
      Assoc(a + " ", b, rest);
      Assoc(a, " ", b + rest);
      BlankBefore(b + rest, nested);
      AppendAssociates(acc, s, u);
      assert ReadSequence(SkipSpace(a + after, nested), nested, acc) == ReadSequence(SkipSpace(after, nested), nested, Append(acc, s));
    }
  }

  lemma OneSequenceReads(text: string, s: Sequence)
    requires text != "" && ReadsAsSequence(text, s)
    ensures ReadsAsAlternatives(text, Only(s))
  {
    forall rest: string, nested: bool | EndsSequence(rest, nested)
      ensures ReadAlternatives(SkipSpace(text + rest, true), nested) == MoreAlternatives(SkipSpace(rest, nested), nested, Only(s))
    {
      StartStays(text, rest, true);
      StartStays(text, rest, nested);
      SequenceStops(text + rest, nested, s, SkipSpace(rest, nested));
    }
  }

  lemma {:induction false} AppendEmpty(s: Sequence)
    ensures Append(Empty, s) == s
    decreases s
  {
    if s.Snoc? {
      AppendEmpty(s.init);
    }
  }

  lemma SequenceStops(text: string, nested: bool, s: Sequence, end: string)
    requires ReadSequence(text, nested, Empty) == ReadSequence(end, nested, Append(Empty, s))
    requires var c := At(end, 0); c == '|' || c == ')' || c == '\n'
    ensures ReadSequence(text, nested, Empty) == Some((s, end))
    ensures ReadAlternatives(text, nested) == MoreAlternatives(end, nested, Only(s))
  {
    AppendEmpty(s);
  }

  lemma BlankBeforeItem(a: string, b: string, s: Sequence, item: Item)
    requires a != "" && ReadsAsSequence(a, s) && ReadsAsItem(b, item)
    ensures ReadsAsSequence(a + " " + b, Snoc(s, item))
  {
    OneItemReads(b, item);
    BlankBetween(a, b, s, Snoc(Empty, item));
    assert Append(s, Snoc(Empty, item)) == Snoc(Append(s, Empty), item);
  }

  /** An item and its operator. */
  lemma OperatorReads(text: string, item: Item, op: Repetition)
    requires ReadsAsItem(text, item) && !Silent(item) && PrintableOperator(op)
    ensures ReadsAsItem(text + ShowOperator(op), Repeat(item, op))
  {
    forall rest: string, nested: bool, acc: Sequence | !IsWordChar(At(rest, 0))
      ensures ReadSequence(text + ShowOperator(op) + rest, nested, acc) ==
        ReadSequence(SkipSpace(rest, nested), nested, Snoc(acc, Repeat(item, op)))
    {
      var after := ShowOperator(op) + rest;
      Assoc(text, ShowOperator(op), rest);
      ReadShownOperator(op, rest, nested);
      SkipNothing(after, nested);
      OperatorStep(after, nested, acc, item, op, SkipSpace(rest, nested));
    }
  }

  /** One alternative more behind a bar. */
  lemma BarBetween(a: string, b: string, alts: Alternatives, s: Sequence)
    requires ReadsAsAlternatives(a, alts) && b != "" && ReadsAsSequence(b, s)
    ensures ReadsAsAlternatives(a + " | " + b, Or(alts, s))
  {
    forall rest: string, nested: bool | EndsSequence(rest, nested)
      ensures ReadAlternatives(SkipSpace(a + " | " + b + rest, true), nested) == MoreAlternatives(SkipSpace(rest, nested), nested, Or(alts, s))
    {
      var next := b + rest;
      OrText(a, b, rest);
      StartStays(b, rest, true);
      StartStays(b, rest, nested);
      SequenceStops(next, nested, s, SkipSpace(rest, nested));
      BarReads(a, next, alts, s, SkipSpace(rest, nested), nested);
    }
  }

  lemma BarReads(a: string, next: string, alts: Alternatives, s: Sequence, end: string, nested: bool)
    requires ReadsAsAlternatives(a, alts) && SkipSpace(next, true) == next && ReadSequence(next, nested, Empty) == Some((s, end))
    ensures ReadAlternatives(SkipSpace(a + (" " + ("|" + (" " + next))), true), nested) == MoreAlternatives(end, nested, Or(alts, s))
  {
    var bar := "|" + (" " + next);
    FirstAndRest('|', " " + next);
    SkipOneBlank(bar, nested);
    BlankBefore(next, true);
    assert EndsSequence(" " + bar, nested);
  }

  /** A blank or nothing. */
  predicate Loose(gap: string) {
    gap == "" || gap == " "
  }

  lemma GapSkips(gap: string, s: string, newlineOk: bool)
    requires Loose(gap)
    ensures SkipSpace(gap + s, newlineOk) == SkipSpace(s, newlineOk)
  {
    if gap == "" {
      assert gap + s == s;
    } else {
      BlankBefore(s, newlineOk);
    }
  }

  /** Alternatives in parentheses, with or without blanks inside. */
  lemma GroupReads(text: string, alts: Alternatives, left: string, right: string)
    requires ReadsAsAlternatives(text, alts) && Loose(left) && Loose(right)
    ensures ReadsAsItem("(" + left + text + right + ")", Group(alts))
  {
    forall rest: string, nested: bool, acc: Sequence | !IsWordChar(At(rest, 0))
      ensures ReadSequence("(" + left + text + right + ")" + rest, nested, acc) ==
        ReadSequence(SkipSpace(rest, nested), nested, Snoc(acc, Group(alts)))
    {
      var inside := text + (right + (")" + rest));
      GroupText(left, text, right, rest);
      FirstAndRest('(', left + inside);
      ParenthesisReads(text, right, rest, alts);
      GapSkips(left, inside, true);
      GroupIs("(" + (left + inside), left + inside, alts, rest, nested, acc);
    }
  }

  lemma GroupText(left: string, text: string, right: string, rest: string)
    ensures "(" + left + text + right + ")" + rest == "(" + (left + (text + (right + (")" + rest))))
  {
    Assoc("(" + left + text + right, ")", rest);
    Assoc("(" + left + text, right, ")" + rest);
    Assoc("(" + left, text, right + (")" + rest));
    Assoc("(", left, text + (right + (")" + rest)));
  }

  lemma ParenthesisReads(text: string, right: string, rest: string, alts: Alternatives)
    requires ReadsAsAlternatives(text, alts) && Loose(right)
    ensures ReadAlternatives(SkipSpace(text + (right + (")" + rest)), true), true) == Some((alts, ")" + rest))
  {
    var end := ")" + rest;
    FirstAndRest(')', rest);
    SkipNothing(end, true);
    GapSkips(right, end, true);
    assert At(right + end, 0) == if right == "" then ')' else ' ';
    assert EndsSequence(right + end, true);
  }

  lemma GroupIs(s: string, inside: string, alts: Alternatives, rest: string, nested: bool, acc: Sequence)
    requires At(s, 0) == '(' && s[1..] == inside && ReadAlternatives(SkipSpace(inside, true), true) == Some((alts, ")" + rest))
    ensures ReadSequence(s, nested, acc) == ReadSequence(SkipSpace(rest, nested), nested, Snoc(acc, Group(alts)))
  {
    assert (")" + rest)[1..] == rest;
  }

  // ----- a table of rules

  /** The text of a rule is read as its body, whatever follows on the next lines. */
  ghost predicate ReadsAs(text: string, body: Alternatives) {
    forall rest: string :: ReadAlternatives(SkipSpace(text + ("\n" + rest), true), false) == Some((body, "\n" + rest))
  }

  lemma AlternativesAreBody(text: string, alts: Alternatives)
    requires ReadsAsAlternatives(text, alts)
    ensures ReadsAs(text, alts)
  {
    forall rest: string
      ensures ReadAlternatives(SkipSpace(text + ("\n" + rest), true), false) == Some((alts, "\n" + rest))
    {
      FirstAndRest('\n', rest);
      SkipNothing("\n" + rest, false);
      assert EndsSequence("\n" + rest, false);
    }
  }

  /** A rule, and the text that stands for its body in the table. */
  datatype Line = Line(name: string, text: string, body: Alternatives)

  /** `format_grammar` */
  function FormatGrammar(lines: seq<Line>): string {
    if lines == [] then "" else lines[0].name + " ::= " + lines[0].text + "\n" + FormatGrammar(lines[1..])
  }

  function Meant(lines: seq<Line>): (g: Grammar)
    ensures |g| == |lines|
  {
    if lines == [] then [] else [Rule(lines[0].name, lines[0].body)] + Meant(lines[1..])
  }

  ghost predicate AllRead(lines: seq<Line>) {
    forall i :: 0 <= i < |lines| ==> PrintableName(lines[i].name) && ReadsAs(lines[i].text, lines[i].body)
  }

  lemma {:induction false} LineReads(line: Line, rest: string)
    requires PrintableName(line.name) && ReadsAs(line.text, line.body)
    ensures ReadRule(line.name + " ::= " + line.text + "\n" + rest) == Some((Rule(line.name, line.body), SkipSpace(rest, true)))
  {
    var body := line.text + ("\n" + rest);
    var sign := "::= " + body;
    RuleText(line.name, line.text, rest);
    NameLength(line.name, " " + sign);
    SkipOneBlank(sign, false);
    FirstAndRest('\n', rest);
    RuleStep(line.name, " " + sign, body, line.body, "\n" + rest);
  }

  lemma {:induction false} TableStart(lines: seq<Line>)
    requires AllRead(lines)
    ensures if lines == [] then FormatGrammar(lines) == "" else IsWordChar(At(FormatGrammar(lines), 0))
  {
    if lines != [] {
      assert FormatGrammar(lines)[0] == lines[0].name[0];
    }
  }

  lemma {:induction false} TableReads(lines: seq<Line>, acc: Grammar)
    requires AllRead(lines)
    ensures ReadRules(FormatGrammar(lines), acc) == Some(acc + Meant(lines))
    decreases |lines|
  {
    TableStart(lines);
    if lines == [] {
      assert acc + Meant(lines) == acc;
    } else {
      var rest := FormatGrammar(lines[1..]);
      var rule := Rule(lines[0].name, lines[0].body);
      LineReads(lines[0], rest);
      TableStart(lines[1..]);
      SkipNothing(rest, true);
      ReadRulesStep(FormatGrammar(lines), acc, rule, rest);
      TableReads(lines[1..], acc + [rule]);
      assert acc + [rule] + Meant(lines[1..]) == acc + Meant(lines);
    }
  }

  /** If every line is read as meant, so is the table. */
  lemma {:induction false} WrittenTableReads(lines: seq<Line>)
    requires AllRead(lines)
    ensures Read(FormatGrammar(lines)) == Some(Meant(lines))
  {
    TableStart(lines);
    SkipNothing(FormatGrammar(lines), true);
    TableReads(lines, []);
    assert [] + Meant(lines) == Meant(lines);
  }

  /** Such a table compiles to rules that generate what its bodies denote. */
  lemma {:induction false} WrittenTableCompiles(lines: seq<Line>, name: string, w: Word)
    requires AllRead(lines) && DefinesItsNames(Meant(lines)) && name in Bodies(Meant(lines))
    ensures var t := Compile(FormatGrammar(lines));
      name in t.ids && (Generated(t, t.ids[name], w) <==> InLanguage(Bodies(Meant(lines)), name, w))
  {
    WrittenTableReads(lines);
    ReadPlain(FormatGrammar(lines));
    DefinedMeansClosed(Meant(lines));
    CompiledLanguage(FormatGrammar(lines), name, w);
  }
}
