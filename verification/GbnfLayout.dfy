/** Grammars as people write them: whatever the layout and the spelling of characters, the same grammar is read. */
module GbnfLayout {
  import opened Wrappers
  import opened Decimals
  import opened GbnfSyntax
  import opened GbnfLexer
  import opened GbnfReader
  import opened GbnfPrinter
  import opened GbnfSpelling

  // ----- gaps

  /** Blanks and tabs; where lines may end, also line ends and whole comments. */
  predicate IsGap(s: string, newlines: bool)
    decreases |s|
  {
    || s == ""
    || ((s[0] == ' ' || s[0] == '\t' || (newlines && (s[0] == '\r' || s[0] == '\n'))) && IsGap(s[1..], newlines))
    || (newlines && s[0] == '#' && Comment(s) < |s| && IsGap(s[Comment(s)..], newlines))
  }

  /** The length of the comment at the front, its line end not included. */
  function Comment(s: string): (n: nat)
    requires s != "" && s[0] == '#'
    ensures 0 < n <= |s| && (forall i :: 0 <= i < n ==> s[i] != '\r' && s[i] != '\n' && s[i] != '\0')
    ensures n < |s| ==> s[n] == '\r' || s[n] == '\n' || s[n] == '\0'
  {
    1 + PrefixLength(s[1..], c => c != '\r' && c != '\n' && c != '\0')
  }

  lemma {:induction false} LineSkipped(s: string, n: nat)
    requires n <= |s| && EndsLine(At(s, n)) && forall i :: 0 <= i < n ==> !EndsLine(s[i])
    ensures SkipLine(s) == s[n..]
    decreases n
  {
    if n > 0 {
      LineSkipped(s[1..], n - 1);
    }
  }

  lemma CommentSkipped(s: string, rest: string)
    requires s != "" && s[0] == '#' && Comment(s) < |s|
    ensures SkipLine(s + rest) == s[Comment(s)..] + rest
  {
    var n := Comment(s);
    LineSkipped(s + rest, n);
    assert (s + rest)[n..] == s[n..] + rest;
  }

  /** A gap is skipped whole, and nothing but gaps is. */
  lemma {:induction false} GapSkipped(gap: string, rest: string, newlines: bool)
    requires IsGap(gap, newlines)
    ensures SkipSpace(gap + rest, newlines) == SkipSpace(rest, newlines)
    decreases |gap|
  {
    if gap == "" {
      assert gap + rest == rest;
    } else if IsBlank(gap[0], newlines) {
      assert (gap + rest)[1..] == gap[1..] + rest;
      GapSkipped(gap[1..], rest, newlines);
    } else {
      var n := Comment(gap);
      CommentSkipped(gap, rest);
      GapSkipped(gap[n..], rest, newlines);
    }
  }

  /** Nothing else is skipped, and a line end only where lines may end. */
  lemma OnlyGapsSkipped(s: string, newlines: bool)
    ensures SkipSpace(s, newlines) == s <==> At(s, 0) !in " \t#" && (newlines ==> At(s, 0) !in "\r\n")
  {
  }

  /** A newline inside parentheses, or behind `::=` or `|`, is a gap; elsewhere it ends the rule. */
  predicate IsLineEnd(s: string) {
    || s == "\n" || s == "\r\n" || s == "\r"
    || (s != "" && s[0] == '#' && var rest := s[Comment(s)..]; rest == "\n" || rest == "\r\n" || rest == "\r")
  }

  // ----- layouts

  /** The gaps inside a line and across lines, the end of a rule's line, and a spelling for every character. */
  datatype Layout = Layout(gap: string, wide: string, eol: string, spell: nat -> string)

  ghost predicate Fine(lay: Layout) {
    && lay.gap != "" && IsGap(lay.gap, false) && lay.wide != "" && IsGap(lay.wide, true) && IsLineEnd(lay.eol)
    && forall c: nat :: c < CODE_LIMIT ==> FineSpelling(lay.spell(c), c)
  }

  /** Quotes, brackets, dashes and carets are escaped everywhere. */
  ghost predicate FineSpelling(text: string, c: nat) {
    Spells(text, c) && text[0] !in "\"]-^"
  }

  function Gap(lay: Layout, nested: bool): string {
    if nested then lay.wide else lay.gap
  }

  function LayChars(lay: Layout, chars: Word): string {
    if chars == [] then "" else lay.spell(chars[0]) + LayChars(lay, chars[1..])
  }

  function LayParts(lay: Layout, parts: seq<Part>): string {
    if parts == [] then ""
    else
      (match parts[0]
       case Single(c) => lay.spell(c)
       case Span(lo, hi) => lay.spell(lo) + ("-" + lay.spell(hi))) + LayParts(lay, parts[1..])
  }

  function LayOperator(lay: Layout, nested: bool, op: Repetition): string
    requires PrintableOperator(op)
  {
    var g := Gap(lay, nested);
    match op
    case Star => "*"
    case Plus => "+"
    case Maybe => "?"
    case Exactly(m) => "{" + (g + (Decimal(m) + (g + "}")))
    case AtLeast(m) => "{" + (g + (Decimal(m) + (g + ("," + (g + "}")))))
    case Between(m, n) => "{" + (g + (Decimal(m) + (g + ("," + (g + (Decimal(n) + (g + "}")))))))
  }

  /** The text of an item without the gap behind it. */
  function Bare(lay: Layout, nested: bool, item: Item): string
    requires PrintableItem(item)
    decreases item, 0
  {
    match item
    case Literal(chars) => "\"" + LayChars(lay, chars) + "\""
    case CharClass(negated, parts) => (if negated then "[^" else "[") + LayParts(lay, parts) + "]"
    case Ref(name) => name
    case AnyChar => "."
    case Group(alts) => "(" + (lay.wide + LayAlternatives(lay, true, alts)) + ")"
    case Repeat(body, op) => LayItem(lay, nested, body) + LayOperator(lay, nested, op)
  }

  function LayItem(lay: Layout, nested: bool, item: Item): string
    requires PrintableItem(item)
    decreases item, 1
  {
    Bare(lay, nested, item) + Gap(lay, nested)
  }

  function LaySequence(lay: Layout, nested: bool, s: Sequence): string
    requires PrintableSequence(s)
    decreases s, 0
  {
    if s.Empty? then "" else LaySequence(lay, nested, s.init) + LayItem(lay, nested, s.last)
  }

  function LayAlternatives(lay: Layout, nested: bool, alts: Alternatives): string
    requires PrintableAlternatives(alts)
    decreases alts, 0
  {
    match alts
    case Only(s) => LaySequence(lay, nested, s)
    case Or(init, last) => LayAlternatives(lay, nested, init) + ("|" + (lay.wide + LaySequence(lay, nested, last)))
  }

  function LayRule(lay: Layout, rule: Rule): string
    requires PrintableRule(rule)
  {
    rule.name + (lay.gap + ("::=" + (lay.wide + (LayAlternatives(lay, false, rule.body) + (lay.eol + lay.wide)))))
  }

  // ----- characters

  lemma SpellReads(lay: Layout, c: nat, rest: string)
    requires Fine(lay) && c < CODE_LIMIT
    ensures var s := lay.spell(c) + rest; Character(s) == Some((c, rest)) && s != "" && At(s, 0) !in "\"]-^"
  {
    assert FineSpelling(lay.spell(c), c);
    SpelledReads(lay.spell(c), c, rest);
  }

  lemma {:induction false} CharsRead(lay: Layout, chars: Word, rest: string, acc: Word)
    requires Fine(lay) && PrintableChars(chars)
    ensures LiteralChars(LayChars(lay, chars) + ("\"" + rest), acc) == Some((acc + chars, rest))
    decreases |chars|
  {
    if chars == [] {
      LiteralCharsEnd(rest, acc);
      assert acc + chars == acc;
    } else {
      var after := LayChars(lay, chars[1..]) + ("\"" + rest);
      SpellReads(lay, chars[0], after);
      Assoc(lay.spell(chars[0]), LayChars(lay, chars[1..]), "\"" + rest);
      LiteralStep(lay.spell(chars[0]) + after, chars[0], after, acc);
      CharsRead(lay, chars[1..], rest, acc + [chars[0]]);
      MoveFirst(acc, chars);
    }
  }

  lemma LiteralStep(s: string, c: nat, after: string, acc: Word)
    requires Character(s) == Some((c, after)) && At(s, 0) != '"'
    ensures LiteralChars(s, acc) == LiteralChars(after, acc + [c])
  {
  }

  lemma PartReads(lay: Layout, part: Part, rest: string)
    requires Fine(lay) && PrintablePart(part) && At(rest, 0) != '-'
    ensures var s := (match part
                      case Single(c) => lay.spell(c)
                      case Span(lo, hi) => lay.spell(lo) + ("-" + lay.spell(hi))) + rest;
      ClassPart(s) == Some((part, rest)) && s != "" && At(s, 0) !in "]-^"
  {
    match part
    case Single(c) => SpellReads(lay, c, rest);
    case Span(lo, hi) =>
      var high := lay.spell(hi) + rest;
      SpellReads(lay, hi, rest);
      SpellReads(lay, lo, "-" + high);
      Assoc(lay.spell(lo), "-" + lay.spell(hi), rest);
      Assoc("-", lay.spell(hi), rest);
      FirstAndRest('-', high);
      RangeReads(lay.spell(lo) + ("-" + high), lo, high, hi, rest);
  }

  lemma RangeReads(s: string, lo: nat, high: string, hi: nat, rest: string)
    requires Character(s) == Some((lo, "-" + high)) && high != "" && At(high, 0) != ']' && Character(high) == Some((hi, rest))
    ensures ClassPart(s) == Some((Span(lo, hi), rest))
  {
    FirstAndRest('-', high);
    assert At("-" + high, 1) == At(high, 0);
  }

  lemma PartsStart(lay: Layout, parts: seq<Part>, rest: string)
    requires Fine(lay) && forall i :: 0 <= i < |parts| ==> PrintablePart(parts[i])
    ensures At(LayParts(lay, parts) + ("]" + rest), 0) !in "-^"
  {
    if parts != [] {
      match parts[0]
      case Single(c) => SpellReads(lay, c, "");
      case Span(lo, hi) => SpellReads(lay, lo, "");
    }
  }

  lemma {:induction false} PartsRead(lay: Layout, parts: seq<Part>, rest: string, acc: seq<Part>)
    requires Fine(lay) && forall i :: 0 <= i < |parts| ==> PrintablePart(parts[i])
    ensures ClassParts(LayParts(lay, parts) + ("]" + rest), acc) == Some((acc + parts, rest))
    decreases |parts|
  {
    if parts == [] {
      assert "" + ("]" + rest) == "]" + rest && acc + parts == acc;
      FirstAndRest(']', rest);
    } else {
      var after := LayParts(lay, parts[1..]) + ("]" + rest);
      var first := match parts[0]
        case Single(c) => lay.spell(c)
        case Span(lo, hi) => lay.spell(lo) + ("-" + lay.spell(hi));
      PartsStart(lay, parts[1..], rest);
      PartReads(lay, parts[0], after);
      Assoc(first, LayParts(lay, parts[1..]), "]" + rest);
      PartStep(first + after, parts[0], after, acc);
      PartsRead(lay, parts[1..], rest, acc + [parts[0]]);
      MoveFirst(acc, parts);
    }
  }

  lemma PartStep(s: string, part: Part, after: string, acc: seq<Part>)
    requires ClassPart(s) == Some((part, after)) && At(s, 0) != ']'
    ensures ClassParts(s, acc) == ClassParts(after, acc + [part])
  {
  }

  // ----- operators

  lemma GapAt(lay: Layout, nested: bool, rest: string)
    requires Fine(lay)
    ensures SkipSpace(Gap(lay, nested) + rest, nested) == SkipSpace(rest, nested)
    ensures !IsWordChar(At(Gap(lay, nested) + rest, 0)) && !IsDigit(At(Gap(lay, nested) + rest, 0))
  {
    GapSkipped(Gap(lay, nested), rest, nested);
  }

  /** A number behind a gap, and the gap behind it. */
  lemma NumberReads(lay: Layout, nested: bool, m: nat, rest: string)
    requires Fine(lay) && m < INT_LIMIT && At(rest, 0) in ",}"
    ensures var g := Gap(lay, nested);
      var s := SkipSpace(g + (Decimal(m) + (g + rest)), nested);
      IsDigitAt(s) && Bound(s) == Some((m, g + rest)) && SkipSpace(g + rest, nested) == rest
  {
    var g := Gap(lay, nested);
    GapAt(lay, nested, Decimal(m) + (g + rest));
    GapAt(lay, nested, rest);
    DecimalStart(m, g + rest);
    SkipNothing(Decimal(m) + (g + rest), nested);
    SkipNothing(rest, nested);
    ReadDecimal(m, g + rest);
  }

  lemma BracesRead(s: string, nested: bool, m: nat, s1: string)
    requires At(s, 0) == '{' && Bound(SkipSpace(s[1..], nested)) == Some((m, s1)) && At(SkipSpace(s1, nested), 0) == '}'
    ensures Operator(s, nested) == Some((Exactly(m), SkipSpace(SkipSpace(s1, nested)[1..], nested)))
  {
  }

  lemma OpenBracesRead(s: string, nested: bool, m: nat, s1: string, s3: string)
    requires At(s, 0) == '{' && Bound(SkipSpace(s[1..], nested)) == Some((m, s1)) && At(SkipSpace(s1, nested), 0) == ','
    requires s3 == SkipSpace(SkipSpace(s1, nested)[1..], nested) && At(s3, 0) == '}'
    ensures Operator(s, nested) == Some((AtLeast(m), SkipSpace(s3[1..], nested)))
  {
  }

  lemma TwoBoundsRead(s: string, nested: bool, m: nat, s1: string, s3: string, n: nat, s5: string)
    requires At(s, 0) == '{' && Bound(SkipSpace(s[1..], nested)) == Some((m, s1)) && At(SkipSpace(s1, nested), 0) == ','
    requires s3 == SkipSpace(SkipSpace(s1, nested)[1..], nested) && IsDigitAt(s3) && Bound(s3) == Some((n, s5))
    requires At(SkipSpace(s5, nested), 0) == '}'
    ensures Operator(s, nested) == Some((Between(m, n), SkipSpace(SkipSpace(s5, nested)[1..], nested)))
  {
  }

  lemma Nested5(a: string, b: string, c: string, d: string, e: string, rest: string)
    ensures a + (b + (c + (d + e))) + rest == a + (b + (c + (d + (e + rest))))
  {
  }

  lemma Nested3(a: string, b: string, c: string, rest: string)
    ensures a + (b + c) + rest == a + (b + (c + rest))
  {
  }

  lemma OperatorReads(lay: Layout, nested: bool, op: Repetition, rest: string)
    requires Fine(lay) && PrintableOperator(op)
    ensures Operator(LayOperator(lay, nested, op) + rest, nested) == Some((op, SkipSpace(rest, nested)))
    ensures StartsOperator(At(LayOperator(lay, nested, op) + rest, 0))
  {
    match op
    case Star => FirstAndRest('*', rest);
    case Plus => FirstAndRest('+', rest);
    case Maybe => FirstAndRest('?', rest);
    case Exactly(m) => ExactlyReads(lay, nested, m, rest);
    case AtLeast(m) => AtLeastReads(lay, nested, m, rest);
    case Between(m, n) => BetweenReads(lay, nested, m, n, rest);
  }

  lemma ExactlyReads(lay: Layout, nested: bool, m: nat, rest: string)
    requires Fine(lay) && m < INT_LIMIT
    ensures var s := "{" + (Gap(lay, nested) + (Decimal(m) + (Gap(lay, nested) + "}"))) + rest;
      At(s, 0) == '{' && Operator(s, nested) == Some((Exactly(m), SkipSpace(rest, nested)))
  {
    var g := Gap(lay, nested);
    var inside := g + (Decimal(m) + (g + ("}" + rest)));
    Nested5("{", g, Decimal(m), g, "}", rest);
    FirstAndRest('{', inside);
    FirstAndRest('}', rest);
    NumberReads(lay, nested, m, "}" + rest);
    BracesRead("{" + inside, nested, m, g + ("}" + rest));
  }

  lemma CommaReads(lay: Layout, nested: bool, rest: string)
    requires Fine(lay)
    ensures SkipSpace(("," + (Gap(lay, nested) + rest))[1..], nested) == SkipSpace(rest, nested)
  {
    FirstAndRest(',', Gap(lay, nested) + rest);
    GapAt(lay, nested, rest);
  }

  lemma AtLeastReads(lay: Layout, nested: bool, m: nat, rest: string)
    requires Fine(lay) && m < INT_LIMIT
    ensures var g := Gap(lay, nested);
      var s := "{" + (g + (Decimal(m) + (g + ("," + (g + "}"))))) + rest;
      At(s, 0) == '{' && Operator(s, nested) == Some((AtLeast(m), SkipSpace(rest, nested)))
  {
    var g := Gap(lay, nested);
    var comma := "," + (g + ("}" + rest));
    var inside := g + (Decimal(m) + (g + comma));
    Nested5("{", g, Decimal(m), g, "," + (g + "}"), rest);
    Nested3(",", g, "}", rest);
    FirstAndRest('{', inside);
    FirstAndRest(',', g + ("}" + rest));
    FirstAndRest('}', rest);
    NumberReads(lay, nested, m, comma);
    CommaReads(lay, nested, "}" + rest);
    SkipNothing("}" + rest, nested);
    OpenBracesRead("{" + inside, nested, m, g + comma, "}" + rest);
  }

  lemma BetweenReads(lay: Layout, nested: bool, m: nat, n: nat, rest: string)
    requires Fine(lay) && m < INT_LIMIT && n < INT_LIMIT
    ensures var g := Gap(lay, nested);
      var s := "{" + (g + (Decimal(m) + (g + ("," + (g + (Decimal(n) + (g + "}"))))))) + rest;
      At(s, 0) == '{' && Operator(s, nested) == Some((Between(m, n), SkipSpace(rest, nested)))
  {
    var g := Gap(lay, nested);
    var close := g + ("}" + rest);
    var comma := "," + (g + (Decimal(n) + close));
    var inside := g + (Decimal(m) + (g + comma));
    Nested5("{", g, Decimal(m), g, "," + (g + (Decimal(n) + (g + "}"))), rest);
    Nested5(",", g, Decimal(n), g, "}", rest);
    FirstAndRest('{', inside);
    FirstAndRest(',', g + (Decimal(n) + close));
    FirstAndRest('}', rest);
    NumberReads(lay, nested, m, comma);
    CommaReads(lay, nested, Decimal(n) + close);
    NumberReads(lay, nested, n, "}" + rest);
    GapAt(lay, nested, Decimal(n) + close);
    TwoBoundsRead("{" + inside, nested, m, g + comma, SkipSpace(Decimal(n) + close, nested), n, close);
  }

  // ----- items, sequences and alternatives

  lemma AtomStep(s: string, nested: bool, acc: Sequence, item: Item, rest: string)
    requires StartsAtom(At(s, 0)) && Atom(s, nested) == Some((item, rest))
    ensures ReadSequence(s, nested, acc) == ReadSequence(rest, nested, Snoc(acc, item))
  {
  }

  lemma LiteralReads(lay: Layout, chars: Word, rest: string, nested: bool)
    requires Fine(lay) && PrintableChars(chars)
    ensures var s := "\"" + LayChars(lay, chars) + "\"" + rest;
      At(s, 0) == '"' && Atom(s, nested) == Some((Literal(chars), SkipSpace(rest, nested)))
  {
    var after := LayChars(lay, chars) + ("\"" + rest);
    CharsRead(lay, chars, rest, []);
    assert [] + chars == chars;
    Assoc("\"" + LayChars(lay, chars), "\"", rest);
    Assoc("\"", LayChars(lay, chars), "\"" + rest);
    FirstAndRest('"', after);
    AtomLiteral("\"" + after, after, chars, rest, nested);
  }

  lemma ClassReads(lay: Layout, negated: bool, parts: seq<Part>, rest: string, nested: bool)
    requires Fine(lay) && forall i :: 0 <= i < |parts| ==> PrintablePart(parts[i])
    ensures var s := (if negated then "[^" else "[") + LayParts(lay, parts) + "]" + rest;
      At(s, 0) == '[' && Atom(s, nested) == Some((CharClass(negated, parts), SkipSpace(rest, nested)))
  {
    var opening := if negated then "[^" else "[";
    var after := LayParts(lay, parts) + ("]" + rest);
    PartsRead(lay, parts, rest, []);
    PartsStart(lay, parts, rest);
    assert [] + parts == parts;
    Assoc(opening + LayParts(lay, parts), "]", rest);
    Assoc(opening, LayParts(lay, parts), "]" + rest);
    AtomClass(opening + after, negated, after, parts, rest, nested);
  }

  lemma {:induction false} BareReads(lay: Layout, nested: bool, item: Item, rest: string, acc: Sequence)
    requires Fine(lay) && PrintableItem(item) && !IsWordChar(At(rest, 0))
    ensures ReadSequence(Bare(lay, nested, item) + rest, nested, acc) == ReadSequence(SkipSpace(rest, nested), nested, Snoc(acc, item))
    ensures Bare(lay, nested, item) != "" && var first := At(Bare(lay, nested, item) + rest, 0); StartsAtom(first) || first == '('
    decreases item, 0
  {
    var s := Bare(lay, nested, item) + rest;
    match item
    case Literal(chars) =>
      LiteralReads(lay, chars, rest, nested);
      AtomStep(s, nested, acc, item, SkipSpace(rest, nested));
    case CharClass(negated, parts) =>
      ClassReads(lay, negated, parts, rest, nested);
      AtomStep(s, nested, acc, item, SkipSpace(rest, nested));
    case Ref(name) =>
      ReadShownName(name, rest, nested);
      AtomStep(s, nested, acc, item, SkipSpace(rest, nested));
    case AnyChar =>
      FirstAndRest('.', rest);
      AtomStep(s, nested, acc, item, SkipSpace(rest, nested));
    case Group(alts) =>
      GroupReads(lay, alts, rest, nested, acc);
    case Repeat(body, op) =>
      var after := LayOperator(lay, nested, op) + rest;
      Assoc(LayItem(lay, nested, body), LayOperator(lay, nested, op), rest);
      OperatorReads(lay, nested, op, rest);
      ItemReads(lay, nested, body, after, acc);
      SkipNothing(after, nested);
      OperatorStep(after, nested, acc, body, op, SkipSpace(rest, nested));
  }

  lemma {:induction false} ItemReads(lay: Layout, nested: bool, item: Item, rest: string, acc: Sequence)
    requires Fine(lay) && PrintableItem(item)
    ensures ReadSequence(LayItem(lay, nested, item) + rest, nested, acc) == ReadSequence(SkipSpace(rest, nested), nested, Snoc(acc, item))
    ensures LayItem(lay, nested, item) != "" && var first := At(LayItem(lay, nested, item) + rest, 0); StartsAtom(first) || first == '('
    decreases item, 1
  {
    var after := Gap(lay, nested) + rest;
    Assoc(Bare(lay, nested, item), Gap(lay, nested), rest);
    GapAt(lay, nested, rest);
    BareReads(lay, nested, item, after, acc);
  }

  lemma {:induction false} GroupReads(lay: Layout, alts: Alternatives, rest: string, nested: bool, acc: Sequence)
    requires Fine(lay) && PrintableAlternatives(alts)
    ensures var s := "(" + (lay.wide + LayAlternatives(lay, true, alts)) + ")" + rest;
      At(s, 0) == '(' && ReadSequence(s, nested, acc) == ReadSequence(SkipSpace(rest, nested), nested, Snoc(acc, Group(alts)))
    decreases alts, 3
  {
    var close := ")" + rest;
    var inside := lay.wide + (LayAlternatives(lay, true, alts) + close);
    Assoc("(" + (lay.wide + LayAlternatives(lay, true, alts)), ")", rest);
    Assoc("(", lay.wide + LayAlternatives(lay, true, alts), close);
    Assoc(lay.wide, LayAlternatives(lay, true, alts), close);
    FirstAndRest('(', inside);
    FirstAndRest(')', rest);
    SkipNothing(close, true);
    GapSkipped(lay.wide, LayAlternatives(lay, true, alts) + close, true);
    AlternativesRead(lay, true, alts, close);
    GroupIs("(" + inside, inside, alts, rest, nested, acc);
  }

  lemma GroupIs(s: string, inside: string, alts: Alternatives, rest: string, nested: bool, acc: Sequence)
    requires At(s, 0) == '(' && s[1..] == inside && ReadAlternatives(SkipSpace(inside, true), true) == Some((alts, ")" + rest))
    ensures ReadSequence(s, nested, acc) == ReadSequence(SkipSpace(rest, nested), nested, Snoc(acc, Group(alts)))
  {
    assert (")" + rest)[1..] == rest;
  }

  lemma {:induction false} SequenceReads(lay: Layout, nested: bool, s: Sequence, rest: string)
    requires Fine(lay) && PrintableSequence(s) && s.Snoc?
    ensures ReadSequence(LaySequence(lay, nested, s) + rest, nested, Empty) == ReadSequence(SkipSpace(rest, nested), nested, s)
    ensures var first := At(LaySequence(lay, nested, s) + rest, 0); StartsAtom(first) || first == '('
    decreases s, 0
  {
    var item := LayItem(lay, nested, s.last) + rest;
    ItemReads(lay, nested, s.last, rest, s.init);
    if s.init.Snoc? {
      SequenceReads(lay, nested, s.init, item);
      SkipNothing(item, nested);
      Assoc(LaySequence(lay, nested, s.init), LayItem(lay, nested, s.last), rest);
    } else {
      assert "" + LayItem(lay, nested, s.last) == LayItem(lay, nested, s.last);
    }
  }

  /** What may follow a sequence. */
  predicate Ends(rest: string, nested: bool) {
    At(SkipSpace(rest, nested), 0) in "|)\r\n\0"
  }

  lemma SequenceEnds(s: string, nested: bool, acc: Sequence)
    requires At(s, 0) in "|)\r\n\0"
    ensures ReadSequence(s, nested, acc) == Some((acc, s))
  {
  }

  lemma {:induction false} AlternativeReads(lay: Layout, nested: bool, s: Sequence, rest: string)
    requires Fine(lay) && PrintableSequence(s) && Ends(rest, nested)
    requires s.Empty? ==> SkipSpace(rest, true) == SkipSpace(rest, nested)
    ensures ReadSequence(SkipSpace(LaySequence(lay, nested, s) + rest, true), nested, Empty) == Some((s, SkipSpace(rest, nested)))
    decreases s, 1
  {
    if s.Snoc? {
      SequenceReads(lay, nested, s, rest);
      SkipNothing(LaySequence(lay, nested, s) + rest, true);
    } else {
      assert "" + rest == rest;
    }
    SequenceEnds(SkipSpace(rest, nested), nested, s);
  }

  lemma {:induction false} AlternativesRead(lay: Layout, nested: bool, alts: Alternatives, rest: string)
    requires Fine(lay) && PrintableAlternatives(alts) && Ends(rest, nested)
    requires LastSequence(alts).Empty? ==> SkipSpace(rest, true) == SkipSpace(rest, nested)
    ensures ReadAlternatives(SkipSpace(LayAlternatives(lay, nested, alts) + rest, true), nested) ==
      MoreAlternatives(SkipSpace(rest, nested), nested, alts)
    decreases alts, 2
  {
    match alts
    case Only(s) => AlternativeReads(lay, nested, s, rest);
    case Or(init, last) =>
      var tail := LaySequence(lay, nested, last) + rest;
      var bar := "|" + (lay.wide + tail);
      Assoc(LayAlternatives(lay, nested, init), "|" + (lay.wide + LaySequence(lay, nested, last)), rest);
      Nested3("|", lay.wide, LaySequence(lay, nested, last), rest);
      FirstAndRest('|', lay.wide + tail);
      GapSkipped(lay.wide, tail, true);
      SkipNothing(bar, true);
      SkipNothing(bar, nested);
      AlternativesRead(lay, nested, init, bar);
      AlternativeReads(lay, nested, last, rest);
  }

  // ----- rules and grammars

  /** The line ends where its comment does, and what follows is skipped up to the next rule. */
  lemma LineEnds(eol: string, rest: string)
    requires IsLineEnd(eol)
    ensures var line := SkipSpace(eol + rest, false);
      At(line, 0) in "\r\n" && EndOfRule(line) == Some(SkipSpace(rest, true))
  {
    if eol[0] == '#' {
      var n := Comment(eol);
      CommentSkipped(eol, rest);
      LineBreaks(eol[n..], rest);
      SkipNothing(eol[n..] + rest, false);
    } else {
      SkipNothing(eol + rest, false);
      LineBreaks(eol, rest);
    }
  }

  lemma LineBreaks(nl: string, rest: string)
    requires nl == "\n" || nl == "\r\n" || nl == "\r"
    ensures At(nl + rest, 0) in "\r\n" && EndOfRule(nl + rest) == Some(SkipSpace(rest, true))
  {
    var s := nl + rest;
    if nl == "\r\n" {
      assert s[1] == '\n' && s[2..] == rest;
    } else {
      assert s[1..] == rest;
      if nl == "\r" && At(s, 1) == '\n' {
        assert rest[0] == '\n' && s[2..] == rest[1..];
      }
    }
  }

  lemma RuleReads(lay: Layout, rule: Rule, rest: string)
    requires Fine(lay) && PrintableRule(rule)
    ensures ReadRule(LayRule(lay, rule) + rest) == Some((rule, SkipSpace(rest, true)))
    ensures IsWordChar(At(LayRule(lay, rule) + rest, 0))
  {
    var line := lay.eol + (lay.wide + rest);
    var body := LayAlternatives(lay, false, rule.body) + line;
    var sign := "::=" + (lay.wide + body);
    RuleText(lay, rule, rest);
    var after := lay.gap + sign;
    GapAt(lay, false, sign);
    SkipNothing(sign, false);
    NameLength(rule.name, after);
    NameCut(rule.name, after);
    assert sign[3..] == lay.wide + body;
    GapSkipped(lay.wide, body, true);
    LineEnds(lay.eol, lay.wide + rest);
    AlternativesRead(lay, false, rule.body, line);
    GapSkipped(lay.wide, rest, true);
    RuleIs(rule.name + after, |rule.name|, sign, rule.body, SkipSpace(line, false), SkipSpace(rest, true));
  }

  lemma RuleText(lay: Layout, rule: Rule, rest: string)
    requires PrintableRule(rule)
    ensures LayRule(lay, rule) + rest ==
      rule.name + (lay.gap + ("::=" + (lay.wide + (LayAlternatives(lay, false, rule.body) + (lay.eol + (lay.wide + rest))))))
  {
    var body := LayAlternatives(lay, false, rule.body);
    Nested3(body, lay.eol, lay.wide, rest);
    Nested5(rule.name, lay.gap, "::=", lay.wide, body + (lay.eol + lay.wide), rest);
  }

  lemma RuleIs(s: string, n: nat, sign: string, body: Alternatives, line: string, after: string)
    requires 0 < n == PrefixLength(s, IsWordChar) && SkipSpace(s[n..], false) == sign && |sign| > 2
    requires At(sign, 0) == ':' && At(sign, 1) == ':' && At(sign, 2) == '='
    requires ReadAlternatives(SkipSpace(sign[3..], true), false) == MoreAlternatives(line, false, body)
    requires At(line, 0) in "\r\n\0" && EndOfRule(line) == Some(after)
    ensures ReadRule(s) == Some((Rule(s[..n], body), after))
  {
  }

  /** A last rule, up to the end of the text. */
  function LayLast(lay: Layout, rule: Rule): string
    requires PrintableRule(rule)
  {
    rule.name + (lay.gap + ("::=" + (lay.wide + LayAlternatives(lay, false, rule.body))))
  }

  lemma LastRuleReads(lay: Layout, rule: Rule)
    requires Fine(lay) && PrintableRule(rule)
    ensures ReadRule(LayLast(lay, rule)) == Some((rule, "")) && IsWordChar(At(LayLast(lay, rule), 0))
  {
    var body := LayAlternatives(lay, false, rule.body);
    var sign := "::=" + (lay.wide + body);
    GapAt(lay, false, sign);
    SkipNothing(sign, false);
    NameLength(rule.name, lay.gap + sign);
    NameCut(rule.name, lay.gap + sign);
    assert sign[3..] == lay.wide + body;
    GapSkipped(lay.wide, body, true);
    AlternativesRead(lay, false, rule.body, "");
    assert body + "" == body;
    RuleIs(LayLast(lay, rule), |rule.name|, sign, rule.body, "", "");
  }

  /** The lines, and perhaps one more that nothing ends. */
  function LayGrammar(lay: Layout, g: Grammar, last: Option<Rule>): string
    requires PrintableGrammar(g) && (last.Some? ==> PrintableRule(last.value))
  {
    if g == [] then (if last.Some? then LayLast(lay, last.value) else "") else LayRule(lay, g[0]) + LayGrammar(lay, g[1..], last)
  }

  function Whole(g: Grammar, last: Option<Rule>): Grammar {
    g + if last.Some? then [last.value] else []
  }

  lemma {:induction false} GrammarStarts(lay: Layout, g: Grammar, last: Option<Rule>)
    requires Fine(lay) && PrintableGrammar(g) && (last.Some? ==> PrintableRule(last.value))
    ensures SkipSpace(LayGrammar(lay, g, last), true) == LayGrammar(lay, g, last)
  {
    if g != [] {
      RuleReads(lay, g[0], LayGrammar(lay, g[1..], last));
    } else if last.Some? {
      LastRuleReads(lay, last.value);
    }
    SkipNothing(LayGrammar(lay, g, last), true);
  }

  lemma {:induction false} FirstRuleReads(lay: Layout, g: Grammar, last: Option<Rule>, acc: Grammar)
    requires Fine(lay) && PrintableGrammar(g) && g != [] && (last.Some? ==> PrintableRule(last.value))
    ensures ReadRules(LayGrammar(lay, g, last), acc) == ReadRules(LayGrammar(lay, g[1..], last), acc + [g[0]])
  {
    var rest := LayGrammar(lay, g[1..], last);
    RuleReads(lay, g[0], rest);
    GrammarStarts(lay, g[1..], last);
    ReadRulesStep(LayRule(lay, g[0]) + rest, acc, g[0], rest);
  }

  lemma {:induction false} RulesRead(lay: Layout, g: Grammar, last: Option<Rule>, acc: Grammar)
    requires Fine(lay) && PrintableGrammar(g) && (last.Some? ==> PrintableRule(last.value))
    ensures ReadRules(LayGrammar(lay, g, last), acc) == Some(acc + Whole(g, last))
    decreases |g|
  {
    if g == [] {
      LastRead(lay, last, acc);
    } else {
      FirstRuleReads(lay, g, last, acc);
      RulesRead(lay, g[1..], last, acc + [g[0]]);
      WholeCons(g, last, acc);
    }
  }

  lemma WholeCons(g: Grammar, last: Option<Rule>, acc: Grammar)
    requires g != []
    ensures acc + [g[0]] + Whole(g[1..], last) == acc + Whole(g, last)
  {
    assert g == [g[0]] + g[1..];
  }

  lemma {:induction false} LastRead(lay: Layout, last: Option<Rule>, acc: Grammar)
    requires Fine(lay) && (last.Some? ==> PrintableRule(last.value))
    ensures ReadRules(LayGrammar(lay, [], last), acc) == Some(acc + Whole([], last))
  {
    if last.Some? {
      LastRuleReads(lay, last.value);
      ReadRulesStep(LayLast(lay, last.value), acc, last.value, "");
      assert Whole([], last) == [last.value];
    } else {
      assert acc + Whole([], last) == acc;
    }
  }

  /** Whatever the gaps, comments, line ends and spellings, the grammar is read. */
  lemma {:induction false} AnyLayoutReads(lay: Layout, before: string, g: Grammar, last: Option<Rule>)
    requires Fine(lay) && IsGap(before, true) && PrintableGrammar(g) && (last.Some? ==> PrintableRule(last.value))
    ensures Read(before + LayGrammar(lay, g, last)) == Some(Whole(g, last))
  {
    GapSkipped(before, LayGrammar(lay, g, last), true);
    GrammarStarts(lay, g, last);
    RulesRead(lay, g, last, []);
    assert [] + Whole(g, last) == Whole(g, last);
  }

  // ----- one such layout

  lemma {:induction false} HexTextSpells(c: nat, n: nat)
    requires FitsHex(c, n)
    ensures HexSpells(HexText(c, n), c)
    decreases n
  {
    if n > 0 {
      HexTextSpells(c / 16, n - 1);
      assert HexText(c, n)[..n - 1] == HexText(c / 16, n - 1);
      assert IsDigitFor(HexChar(c % 16), c % 16);
    }
  }

  lemma EscapeIsFine(c: nat)
    requires c < CODE_LIMIT
    ensures FineSpelling("\\U" + HexText(c, 8), c)
  {
    CodeFitsHex(c);
    HexTextSpells(c, 8);
    var text := "\\U" + HexText(c, 8);
    assert text[..2] == "\\U" && text[2..] == HexText(c, 8);
  }

  /** Tabs, Windows line ends and comments. */
  function Commented(): Layout {
    Layout(" \t", "\r\n# note\n", "# end\r\n", (c: nat) => "\\U" + HexText(c, 8))
  }

  lemma CommentedIsFine()
    ensures Fine(Commented())
  {
    forall c: nat | c < CODE_LIMIT
      ensures FineSpelling(Commented().spell(c), c)
    {
      EscapeIsFine(c);
    }
    GapIsGap();
    WideIsGap();
    EndIsLineEnd();
  }

  lemma CommentLength(s: string, n: nat)
    requires s != "" && s[0] == '#' && 0 < n < |s| && s[n] in "\r\n" && forall i :: 0 < i < n ==> s[i] !in "\r\n\0"
    ensures Comment(s) == n
  {
    PrefixLengthIs(s[1..], c => c != '\r' && c != '\n' && c != '\0', n - 1);
  }

  lemma OneMoreBlank(c: char, s: string, newlines: bool)
    requires (c == ' ' || c == '\t' || (newlines && (c == '\r' || c == '\n'))) && IsGap(s, newlines)
    ensures IsGap([c] + s, newlines)
  {
    assert ([c] + s)[1..] == s;
  }

  lemma GapIsGap()
    ensures IsGap(" \t", false)
  {
    OneMoreBlank('\t', "", false);
    OneMoreBlank(' ', ['\t'] + "", false);
    assert [' '] + (['\t'] + "") == " \t";
  }

  lemma WideIsGap()
    ensures IsGap("\r\n# note\n", true)
  {
    var comment := "# note\n";
    CommentLength(comment, 6);
    OneMoreBlank('\n', "", true);
    assert comment[6..] == ['\n'] + "";
    assert IsGap(comment, true);
    OneMoreBlank('\n', comment, true);
    OneMoreBlank('\r', ['\n'] + comment, true);
    assert ['\r'] + (['\n'] + comment) == "\r\n# note\n";
  }

  lemma EndIsLineEnd()
    ensures IsLineEnd("# end\r\n")
  {
    var eol := "# end\r\n";
    CommentLength(eol, 5);
    assert eol[5..] == "\r\n";
  }
}
