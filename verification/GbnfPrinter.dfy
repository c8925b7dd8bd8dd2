/** Writing a grammar as GBNF text, and reading it back. */
module GbnfPrinter {
  import opened Wrappers
  import opened Decimals
  import opened GbnfSyntax
  import opened GbnfLexer
  import opened GbnfReader

  const CODE_LIMIT: nat := 0x1_0000_0000
  const INT_LIMIT: nat := 0x8000_0000

  const INT_MAX: int := INT_LIMIT - 1

  function HexChar(d: nat): (c: char)
    requires d < 16
    ensures IsHex(c) && HexValue(c) == d
  {
    if d < 10 then DigitChar(d) else 'A' + (d - 10) as char
  }

  /** The last `n` hexadecimal digits of `c`. */
  function HexText(c: nat, n: nat): (s: string)
    ensures |s| == n
    decreases n
  {
    if n == 0 then "" else HexText(c / 16, n - 1) + [HexChar(c % 16)]
  }

  predicate PrintsAsItself(c: nat) {
    32 <= c <= 126 && c != '"' as int && c != '\\' as int && c != '[' as int && c != ']' as int && c != '-' as int && c != '^' as int
  }

  /** In a literal `-`, `^` and the brackets need no escape. */
  function LiteralChar(c: nat): string {
    if PrintsAsItself(c) || c == '-' as int then [c as char] else "\\U" + HexText(c, 8)
  }

  function ClassChar(c: nat): string {
    if PrintsAsItself(c) then [c as char] else "\\U" + HexText(c, 8)
  }

  function ShowLiteral(chars: Word): string {
    if chars == [] then "" else LiteralChar(chars[0]) + ShowLiteral(chars[1..])
  }

  function ShowPart(part: Part): string {
    match part
    case Single(c) => ClassChar(c)
    case Span(lo, hi) => ClassChar(lo) + "-" + ClassChar(hi)
  }

  function ShowParts(parts: seq<Part>): string {
    if parts == [] then "" else ShowPart(parts[0]) + ShowParts(parts[1..])
  }

  function ShowOperator(op: Repetition): string
    requires PrintableOperator(op)
  {
    match op
    case Star => "*"
    case Plus => "+"
    case Maybe => "?"
    case Exactly(m) => "{" + Decimal(m) + "}"
    case AtLeast(m) => "{" + Decimal(m) + ",}"
    case Between(m, n) => "{" + Decimal(m) + "," + Decimal(n) + "}"
  }

  function ShowItem(item: Item): string
    requires PrintableItem(item)
    decreases item
  {
    match item
    case Literal(chars) => "\"" + ShowLiteral(chars) + "\""
    case CharClass(negated, parts) => (if negated then "[^" else "[") + ShowParts(parts) + "]"
    case Ref(name) => name
    case AnyChar => "."
    case Group(alts) => "(" + ShowAlternatives(alts) + ")"
    case Repeat(body, op) => ShowItem(body) + ShowOperator(op)
  }

  function ShowSequence(s: Sequence): string
    requires PrintableSequence(s)
    decreases s
  {
    match s
    case Empty => ""
    case Snoc(init, last) => (if init.Empty? then "" else ShowSequence(init) + " ") + ShowItem(last)
  }

  function ShowAlternatives(alts: Alternatives): string
    requires PrintableAlternatives(alts)
    decreases alts
  {
    match alts
    case Only(s) => ShowSequence(s)
    case Or(init, last) => ShowAlternatives(init) + " | " + ShowSequence(last)
  }

  function ShowRule(rule: Rule): string
    requires PrintableRule(rule)
  {
    rule.name + " ::= " + ShowAlternatives(rule.body) + "\n"
  }

  function ShowGrammar(g: Grammar): string
    requires PrintableGrammar(g)
  {
    if g == [] then "" else ShowRule(g[0]) + ShowGrammar(g[1..])
  }

  // ----- what can be printed: everything the parser can return but for empty bodies before a line end

  predicate PrintableName(name: string) {
    name != "" && forall i :: 0 <= i < |name| ==> IsWordChar(name[i])
  }

  predicate PrintableOperator(op: Repetition) {
    match op
    case Exactly(m) => 0 <= m < INT_LIMIT
    case AtLeast(m) => 0 <= m < INT_LIMIT
    case Between(m, n) => 0 <= m < INT_LIMIT && 0 <= n < INT_LIMIT
    case _ => true
  }

  predicate PrintableChars(chars: Word) {
    forall i :: 0 <= i < |chars| ==> chars[i] < CODE_LIMIT
  }

  predicate PrintablePart(part: Part) {
    match part
    case Single(c) => c < CODE_LIMIT
    case Span(lo, hi) => lo < CODE_LIMIT && hi < CODE_LIMIT
  }

  predicate PrintableItem(item: Item)
    decreases item
  {
    match item
    case Literal(chars) => PrintableChars(chars)
    case CharClass(_, parts) => forall i :: 0 <= i < |parts| ==> PrintablePart(parts[i])
    case Ref(name) => PrintableName(name)
    case AnyChar => true
    case Group(alts) => PrintableAlternatives(alts)
    case Repeat(body, op) => PrintableItem(body) && !Silent(body) && PrintableOperator(op)
  }

  predicate PrintableSequence(s: Sequence)
    decreases s
  {
    s.Snoc? ==> PrintableSequence(s.init) && PrintableItem(s.last)
  }

  predicate PrintableAlternatives(alts: Alternatives)
    decreases alts
  {
    match alts
    case Only(s) => PrintableSequence(s)
    case Or(init, last) => PrintableAlternatives(init) && PrintableSequence(last)
  }

  function LastSequence(alts: Alternatives): Sequence {
    if alts.Only? then alts.only else alts.last
  }

  /** A line that ends in `::=` or `|` is continued by the next one, so the last alternative must not be empty. */
  predicate PrintableRule(rule: Rule) {
    PrintableName(rule.name) && PrintableAlternatives(rule.body) && LastSequence(rule.body).Snoc?
  }

  predicate PrintableGrammar(g: Grammar) {
    forall i :: 0 <= i < |g| ==> PrintableRule(g[i])
  }

  // ----- concatenation

  lemma Assoc(a: string, b: string, c: string)
    ensures a + b + c == a + (b + c)
  {
  }

  lemma MoveFirst<T>(acc: seq<T>, s: seq<T>)
    requires s != []
    ensures acc + [s[0]] + s[1..] == acc + s
  {
  }

  /** The rest of a text after its first character. */
  lemma FirstAndRest(c: char, s: string)
    ensures ([c] + s)[0] == c && ([c] + s)[1..] == s
  {
  }

  // ----- characters, literals and classes

  predicate FitsHex(c: nat, n: nat)
    decreases n
  {
    if n == 0 then c == 0 else FitsHex(c / 16, n - 1)
  }

  lemma {:induction false} HexDigitsSnoc(s: string, n: nat, value: nat, u: nat, last: char, rest: string)
    requires HexDigits(s, n, value) == Some((u, [last] + rest)) && IsHex(last)
    ensures HexDigits(s, n + 1, value) == Some((u * 16 + HexValue(last), rest))
    decreases n
  {
    if n == 0 {
      assert s[1..] == rest;
    } else {
      HexDigitsSnoc(s[1..], n - 1, value * 16 + HexValue(s[0]), u, last, rest);
    }
  }

  lemma {:induction false} ReadHexText(c: nat, n: nat, rest: string)
    requires FitsHex(c, n)
    ensures HexDigits(HexText(c, n) + rest, n, 0) == Some((c, rest))
    decreases n
  {
    if n == 0 {
      assert HexText(c, 0) + rest == rest;
    } else {
      var last := HexChar(c % 16);
      ReadHexText(c / 16, n - 1, [last] + rest);
      assert HexText(c, n) + rest == HexText(c / 16, n - 1) + ([last] + rest);
      HexDigitsSnoc(HexText(c, n) + rest, n - 1, 0, c / 16, last, rest);
    }
  }

  lemma CodeFitsHex(c: nat)
    requires c < CODE_LIMIT
    ensures FitsHex(c, 8)
  {
    var c4 := c / 16 / 16 / 16 / 16;
    assert c4 < 0x1_0000;
    assert c4 / 16 / 16 / 16 / 16 == 0;
    assert FitsHex(c4, 4);
    assert FitsHex(c / 16 / 16, 6);
  }

  lemma ReadEscaped(c: nat, rest: string)
    requires c < CODE_LIMIT
    ensures Character("\\U" + HexText(c, 8) + rest) == Some((c, rest))
  {
    CodeFitsHex(c);
    ReadHexText(c, 8, rest);
    Assoc("\\U", HexText(c, 8), rest);
    LongEscape("\\U" + (HexText(c, 8) + rest), HexText(c, 8) + rest);
  }

  lemma LongEscape(s: string, digits: string)
    requires s == "\\U" + digits
    ensures Character(s) == HexDigits(digits, 8, 0)
  {
    assert s[0] == '\\' && s[1] == 'U' && s[2..] == digits;
  }

  lemma ReadPlainChar(c: nat, rest: string)
    requires 32 <= c <= 126 && c != '\\' as int
    ensures Character([c as char] + rest) == Some((c, rest))
  {
    FirstAndRest(c as char, rest);
    OneByte([c as char] + rest);
  }

  /** A byte below 128 stands for itself. */
  lemma OneByte(s: string)
    requires s != [] && 0 < s[0] as int < 128 && s[0] != '\\'
    ensures Character(s) == Some((s[0] as int, s[1..]))
  {
    var first := s[0] as int;
    assert first % 256 == first && first / 16 < 8;
    assert Utf8Length(first / 16) == 1;
    assert first % LeadMask(1) == first;
  }

  lemma ReadLiteralChar(c: nat, rest: string)
    requires c < CODE_LIMIT
    ensures Character(LiteralChar(c) + rest) == Some((c, rest))
    ensures At(LiteralChar(c) + rest, 0) != '"'
  {
    if PrintsAsItself(c) || c == '-' as int {
      ReadPlainChar(c, rest);
    } else {
      ReadEscaped(c, rest);
    }
  }

  lemma ReadClassChar(c: nat, rest: string)
    requires c < CODE_LIMIT
    ensures Character(ClassChar(c) + rest) == Some((c, rest))
    ensures var first := At(ClassChar(c) + rest, 0); first != ']' && first != '-' && first != '^'
  {
    if PrintsAsItself(c) {
      ReadPlainChar(c, rest);
    } else {
      ReadEscaped(c, rest);
    }
  }

  lemma {:induction false} ReadShownLiteral(chars: Word, rest: string, acc: Word)
    requires PrintableChars(chars)
    ensures LiteralChars(ShowLiteral(chars) + ("\"" + rest), acc) == Some((acc + chars, rest))
    decreases |chars|
  {
    if chars == [] {
      LiteralCharsEnd(rest, acc);
      assert acc + chars == acc;
    } else {
      var after := ShowLiteral(chars[1..]) + ("\"" + rest);
      LiteralCharsStep(chars[0], after, acc);
      ReadShownLiteral(chars[1..], rest, acc + [chars[0]]);
      Assoc(LiteralChar(chars[0]), ShowLiteral(chars[1..]), "\"" + rest);
      MoveFirst(acc, chars);
    }
  }

  lemma LiteralCharsEnd(rest: string, acc: Word)
    ensures LiteralChars("" + ("\"" + rest), acc) == Some((acc, rest))
  {
    assert "" + ("\"" + rest) == ['"'] + rest;
    FirstAndRest('"', rest);
  }

  lemma LiteralCharsStep(c: nat, after: string, acc: Word)
    requires c < CODE_LIMIT
    ensures LiteralChars(LiteralChar(c) + after, acc) == LiteralChars(after, acc + [c])
  {
    ReadLiteralChar(c, after);
  }

  lemma ReadShownPart(part: Part, rest: string)
    requires PrintablePart(part) && At(rest, 0) != '-'
    ensures ClassPart(ShowPart(part) + rest) == Some((part, rest))
    ensures var first := At(ShowPart(part) + rest, 0); first != ']' && first != '-' && first != '^'
  {
    match part
    case Single(c) => ReadClassChar(c, rest);
    case Span(lo, hi) =>
      var after := "-" + (ClassChar(hi) + rest);
      assert ShowPart(part) + rest == ClassChar(lo) + after;
      assert after[1..] == ClassChar(hi) + rest;
      ReadClassChar(lo, after);
      ReadClassChar(hi, rest);
      assert At(after, 1) == At(ClassChar(hi) + rest, 0);
  }

  lemma {:induction false} ReadShownParts(parts: seq<Part>, rest: string, acc: seq<Part>)
    requires forall i :: 0 <= i < |parts| ==> PrintablePart(parts[i])
    ensures ClassParts(ShowParts(parts) + ("]" + rest), acc) == Some((acc + parts, rest))
    ensures var first := At(ShowParts(parts) + ("]" + rest), 0); first != '-' && first != '^'
    decreases |parts|
  {
    if parts == [] {
      ClassPartsEnd(rest, acc);
      assert acc + parts == acc;
    } else {
      var after := ShowParts(parts[1..]) + ("]" + rest);
      ReadShownParts(parts[1..], rest, acc + [parts[0]]);
      ClassPartsStep(parts[0], after, acc);
      Assoc(ShowPart(parts[0]), ShowParts(parts[1..]), "]" + rest);
      MoveFirst(acc, parts);
    }
  }

  lemma ClassPartsEnd(rest: string, acc: seq<Part>)
    ensures ClassParts("" + ("]" + rest), acc) == Some((acc, rest)) && At("" + ("]" + rest), 0) == ']'
  {
    assert "" + ("]" + rest) == [']'] + rest;
    FirstAndRest(']', rest);
  }

  lemma ClassPartsStep(part: Part, after: string, acc: seq<Part>)
    requires PrintablePart(part) && At(after, 0) != '-'
    ensures ClassParts(ShowPart(part) + after, acc) == ClassParts(after, acc + [part])
    ensures var first := At(ShowPart(part) + after, 0); first != '-' && first != '^'
  {
    ReadShownPart(part, after);
  }

  // ----- operators

  lemma ReadDecimal(m: nat, rest: string)
    requires m < INT_LIMIT && !IsDigit(At(rest, 0))
    ensures Bound(Decimal(m) + rest) == Some((m, rest))
  {
    var s, n := Decimal(m) + rest, |Decimal(m)|;
    assert s[..n] == Decimal(m) && s[n..] == rest;
    assert n < |s| ==> s[n] == At(rest, 0);
    PrefixLengthIs(s, IsDigit, n);
    ValueOfDecimal(m);
  }

  lemma SkipNothing(s: string, newlineOk: bool)
    requires !IsBlank(At(s, 0), newlineOk) && At(s, 0) != '#'
    ensures SkipSpace(s, newlineOk) == s
  {
  }

  lemma DecimalStart(m: nat, rest: string)
    ensures IsDigit(At(Decimal(m) + rest, 0))
  {
  }

  /** `s` is a brace followed by the number `m` and then by `after`. */
  predicate OpensWith(s: string, m: int, after: string) {
    At(s, 0) == '{' && IsDigitAt(s[1..]) && Bound(s[1..]) == Some((m, after))
  }

  lemma OpenBrace(m: nat, after: string)
    requires m < INT_LIMIT && !IsDigit(At(after, 0))
    ensures OpensWith("{" + (Decimal(m) + after), m, after)
  {
    FirstAndRest('{', Decimal(m) + after);
    ReadDecimal(m, after);
    DecimalStart(m, after);
  }

  lemma BracesExactly(s: string, m: int, after: string, nested: bool)
    requires OpensWith(s, m, after) && At(after, 0) == '}'
    ensures Operator(s, nested) == Some((Exactly(m), SkipSpace(after[1..], nested)))
  {
    SkipNothing(s[1..], nested);
    SkipNothing(after, nested);
  }

  lemma BracesAtLeast(s: string, m: int, after: string, nested: bool)
    requires OpensWith(s, m, after) && At(after, 0) == ',' && At(after, 1) == '}'
    ensures Operator(s, nested) == Some((AtLeast(m), SkipSpace(after[2..], nested)))
  {
    SkipNothing(s[1..], nested);
    SkipNothing(after, nested);
    SkipNothing(after[1..], nested);
  }

  lemma BracesBetween(s: string, m: int, after: string, n: int, last: string, nested: bool)
    requires OpensWith(s, m, after) && At(after, 0) == ',' && IsDigitAt(after[1..])
    requires Bound(after[1..]) == Some((n, last)) && At(last, 0) == '}'
    ensures Operator(s, nested) == Some((Between(m, n), SkipSpace(last[1..], nested)))
  {
    SkipNothing(s[1..], nested);
    SkipNothing(after, nested);
    SkipNothing(after[1..], nested);
    SkipNothing(last, nested);
  }

  lemma ReadExactly(m: nat, rest: string, nested: bool)
    requires m < INT_LIMIT
    ensures Operator("{" + (Decimal(m) + ("}" + rest)), nested) == Some((Exactly(m), SkipSpace(rest, nested)))
  {
    FirstAndRest('}', rest);
    OpenBrace(m, "}" + rest);
    BracesExactly("{" + (Decimal(m) + ("}" + rest)), m, "}" + rest, nested);
  }

  lemma ReadAtLeast(m: nat, rest: string, nested: bool)
    requires m < INT_LIMIT
    ensures Operator("{" + (Decimal(m) + (",}" + rest)), nested) == Some((AtLeast(m), SkipSpace(rest, nested)))
  {
    assert (",}" + rest)[2..] == rest;
    OpenBrace(m, ",}" + rest);
    BracesAtLeast("{" + (Decimal(m) + (",}" + rest)), m, ",}" + rest, nested);
  }

  lemma ReadBetween(m: nat, n: nat, rest: string, nested: bool)
    requires m < INT_LIMIT && n < INT_LIMIT
    ensures Operator("{" + (Decimal(m) + ("," + (Decimal(n) + ("}" + rest)))), nested) ==
      Some((Between(m, n), SkipSpace(rest, nested)))
  {
    var last := "}" + rest;
    var after := "," + (Decimal(n) + last);
    FirstAndRest('}', rest);
    FirstAndRest(',', Decimal(n) + last);
    ReadDecimal(n, last);
    DecimalStart(n, last);
    OpenBrace(m, after);
    BracesBetween("{" + (Decimal(m) + after), m, after, n, last, nested);
  }

  lemma OperatorText(op: Repetition, rest: string)
    requires PrintableOperator(op)
    ensures ShowOperator(op) + rest == match op
      case Star => "*" + rest
      case Plus => "+" + rest
      case Maybe => "?" + rest
      case Exactly(m) => "{" + (Decimal(m) + ("}" + rest))
      case AtLeast(m) => "{" + (Decimal(m) + (",}" + rest))
      case Between(m, n) => "{" + (Decimal(m) + ("," + (Decimal(n) + ("}" + rest))))
  {
    match op
    case Exactly(m) =>
      Assoc("{" + Decimal(m), "}", rest);
      Assoc("{", Decimal(m), "}" + rest);
    case AtLeast(m) =>
      Assoc("{" + Decimal(m), ",}", rest);
      Assoc("{", Decimal(m), ",}" + rest);
    case Between(m, n) => BetweenText(Decimal(m), Decimal(n), rest);
    case _ =>
  }

  lemma ReadShownOperator(op: Repetition, rest: string, nested: bool)
    requires PrintableOperator(op)
    ensures Operator(ShowOperator(op) + rest, nested) == Some((op, SkipSpace(rest, nested)))
    ensures StartsOperator(At(ShowOperator(op) + rest, 0))
  {
    OperatorText(op, rest);
    match op
    case Star => FirstAndRest('*', rest);
    case Plus => FirstAndRest('+', rest);
    case Maybe => FirstAndRest('?', rest);
    case Exactly(m) => ReadExactly(m, rest, nested);
    case AtLeast(m) => ReadAtLeast(m, rest, nested);
    case Between(m, n) => ReadBetween(m, n, rest, nested);
  }

  lemma BetweenText(m: string, n: string, rest: string)
    ensures "{" + m + "," + n + "}" + rest == "{" + (m + ("," + (n + ("}" + rest))))
  {
    Assoc("{" + m + "," + n, "}", rest);
    Assoc("{" + m + ",", n, "}" + rest);
    Assoc("{" + m, ",", n + ("}" + rest));
    Assoc("{", m, "," + (n + ("}" + rest)));
  }

  // ----- items, sequences and alternatives

  lemma {:induction false} ItemStart(item: Item, rest: string)
    requires PrintableItem(item)
    ensures var first := At(ShowItem(item) + rest, 0); StartsAtom(first) || first == '('
    ensures ShowItem(item) != ""
    decreases item
  {
    match item
    case Repeat(body, op) =>
      ItemStart(body, ShowOperator(op) + rest);
      Assoc(ShowItem(body), ShowOperator(op), rest);
    case _ =>
  }

  lemma ReadShownLiteralItem(chars: Word, rest: string, nested: bool)
    requires PrintableChars(chars)
    ensures var s := ShowItem(Literal(chars)) + rest;
      At(s, 0) == '"' && Atom(s, nested) == Some((Literal(chars), SkipSpace(rest, nested)))
  {
    var after := ShowLiteral(chars) + ("\"" + rest);
    ReadShownLiteral(chars, rest, []);
    assert [] + chars == chars;
    Assoc("\"" + ShowLiteral(chars), "\"", rest);
    Assoc("\"", ShowLiteral(chars), "\"" + rest);
    FirstAndRest('"', after);
    AtomLiteral("\"" + after, after, chars, rest, nested);
  }

  lemma AtomLiteral(s: string, after: string, chars: Word, rest: string, nested: bool)
    requires At(s, 0) == '"' && s[1..] == after && LiteralChars(after, []) == Some((chars, rest))
    ensures Atom(s, nested) == Some((Literal(chars), SkipSpace(rest, nested)))
  {
  }

  lemma ReadShownClass(negated: bool, parts: seq<Part>, rest: string, nested: bool)
    requires forall i :: 0 <= i < |parts| ==> PrintablePart(parts[i])
    ensures var s := ShowItem(CharClass(negated, parts)) + rest;
      At(s, 0) == '[' && Atom(s, nested) == Some((CharClass(negated, parts), SkipSpace(rest, nested)))
  {
    var after := ShowParts(parts) + ("]" + rest);
    var opening := if negated then "[^" else "[";
    ReadShownParts(parts, rest, []);
    assert [] + parts == parts;
    ClassText(negated, parts, rest);
    AtomClass(opening + after, negated, after, parts, rest, nested);
  }

  lemma ClassText(negated: bool, parts: seq<Part>, rest: string)
    requires forall i :: 0 <= i < |parts| ==> PrintablePart(parts[i])
    ensures ShowItem(CharClass(negated, parts)) + rest == (if negated then "[^" else "[") + (ShowParts(parts) + ("]" + rest))
  {
    var opening := if negated then "[^" else "[";
    assert ShowItem(CharClass(negated, parts)) == opening + ShowParts(parts) + "]";
    Assoc(opening + ShowParts(parts), "]", rest);
    Assoc(opening, ShowParts(parts), "]" + rest);
  }

  lemma AtomClass(s: string, negated: bool, after: string, parts: seq<Part>, rest: string, nested: bool)
    requires s == (if negated then "[^" else "[") + after && At(after, 0) != '^'
    requires ClassParts(after, []) == Some((parts, rest))
    ensures At(s, 0) == '[' && Atom(s, nested) == Some((CharClass(negated, parts), SkipSpace(rest, nested)))
  {
    if negated {
      assert s[2..] == after && s[1] == '^';
    } else {
      assert s[1..] == after && At(s, 1) == At(after, 0);
    }
  }

  lemma ReadShownName(name: string, rest: string, nested: bool)
    requires PrintableName(name) && !IsWordChar(At(rest, 0))
    ensures IsWordChar(At(name + rest, 0)) && Atom(name + rest, nested) == Some((Ref(name), SkipSpace(rest, nested)))
  {
    NameLength(name, rest);
    assert (name + rest)[..|name|] == name && (name + rest)[|name|..] == rest;
  }

  lemma NameLength(name: string, rest: string)
    requires PrintableName(name) && !IsWordChar(At(rest, 0))
    ensures PrefixLength(name + rest, IsWordChar) == |name|
  {
    var s := name + rest;
    assert |name| < |s| ==> s[|name|] == At(rest, 0);
    PrefixLengthIs(s, IsWordChar, |name|);
  }

  lemma ReadShownAtom(item: Item, rest: string, nested: bool)
    requires PrintableItem(item) && !item.Repeat? && !item.Group?
    requires !IsWordChar(At(rest, 0))
    ensures Atom(ShowItem(item) + rest, nested) == Some((item, SkipSpace(rest, nested)))
    ensures StartsAtom(At(ShowItem(item) + rest, 0))
  {
    match item
    case Literal(chars) => ReadShownLiteralItem(chars, rest, nested);
    case CharClass(negated, parts) => ReadShownClass(negated, parts, rest, nested);
    case Ref(name) => ReadShownName(name, rest, nested);
    case AnyChar => assert ("." + rest)[1..] == rest;
  }

  lemma {:induction false} ReadShownItem(item: Item, rest: string, nested: bool, acc: Sequence)
    requires PrintableItem(item) && !IsWordChar(At(rest, 0))
    ensures ReadSequence(ShowItem(item) + rest, nested, acc) == ReadSequence(SkipSpace(rest, nested), nested, Snoc(acc, item))
    decreases item, 0
  {
    match item
    case Group(alts) =>
      ReadShownGroup(alts, rest, nested);
    case Repeat(body, op) =>
      var after := ShowOperator(op) + rest;
      Assoc(ShowItem(body), ShowOperator(op), rest);
      ReadShownOperator(op, rest, nested);
      ReadShownItem(body, after, nested, acc);
      SkipNothing(after, nested);
      OperatorStep(after, nested, acc, body, op, SkipSpace(rest, nested));
    case _ =>
      ReadShownAtom(item, rest, nested);
  }

  lemma OperatorStep(s: string, nested: bool, acc: Sequence, body: Item, op: Repetition, rest: string)
    requires StartsOperator(At(s, 0)) && Operator(s, nested) == Some((op, rest)) && !Silent(body)
    ensures ReadSequence(s, nested, Snoc(acc, body)) == ReadSequence(rest, nested, Snoc(acc, Repeat(body, op)))
  {
  }

  lemma {:induction false} ReadShownGroup(alts: Alternatives, rest: string, nested: bool)
    requires PrintableAlternatives(alts)
    ensures var s := ShowItem(Group(alts)) + rest;
      At(s, 0) == '(' && ReadGroup(s, nested) == Some((Group(alts), SkipSpace(rest, nested)))
    decreases alts, 1
  {
    var s, after := ShowItem(Group(alts)) + rest, ")" + rest;
    assert s[1..] == ShowAlternatives(alts) + after;
    SkipNothing(after, true);
    ReadShownAlternatives(alts, after, true);
    assert after[1..] == rest;
  }

  /** What may follow a sequence: the next alternative, the end of a group, or the end of the line. */
  predicate EndsSequence(rest: string, nested: bool) {
    var c := At(SkipSpace(rest, nested), 0);
    !IsWordChar(At(rest, 0)) && (c == '|' || c == ')' || c == '\n')
  }

  lemma {:induction false} ReadShownSequence(s: Sequence, rest: string, nested: bool)
    requires PrintableSequence(s) && s.Snoc? && !IsWordChar(At(rest, 0))
    ensures ReadSequence(ShowSequence(s) + rest, nested, Empty) == ReadSequence(SkipSpace(rest, nested), nested, s)
    ensures var first := At(ShowSequence(s) + rest, 0); StartsAtom(first) || first == '('
    decreases s, 0
  {
    ItemStart(s.last, rest);
    ReadShownItem(s.last, rest, nested, s.init);
    var item := ShowItem(s.last) + rest;
    if s.init.Snoc? {
      SkipOneBlank(item, nested);
      ReadShownSequence(s.init, " " + item, nested);
      Assoc(ShowSequence(s.init) + " ", ShowItem(s.last), rest);
      Assoc(ShowSequence(s.init), " ", item);
    } else {
      assert "" + ShowItem(s.last) == ShowItem(s.last);
    }
  }

  lemma SkipOneBlank(s: string, newlineOk: bool)
    requires !IsBlank(At(s, 0), newlineOk) && At(s, 0) != '#'
    ensures SkipSpace(" " + s, newlineOk) == s
    ensures !IsWordChar(At(" " + s, 0))
  {
    assert (" " + s)[1..] == s;
  }

  /** A printed alternative is read back up to what follows it. */
  lemma {:induction false} ReadShownAlternative(s: Sequence, rest: string, nested: bool)
    requires PrintableSequence(s) && EndsSequence(rest, nested)
    requires s.Empty? ==> SkipSpace(rest, true) == SkipSpace(rest, nested)
    ensures ReadSequence(SkipSpace(ShowSequence(s) + rest, true), nested, Empty) == Some((s, SkipSpace(rest, nested)))
    decreases s, 1
  {
    if s.Snoc? {
      ReadShownSequence(s, rest, nested);
      SkipNothing(ShowSequence(s) + rest, true);
    } else {
      assert ShowSequence(s) + rest == rest;
    }
  }

  lemma {:induction false} ReadShownAlternatives(alts: Alternatives, rest: string, nested: bool)
    requires PrintableAlternatives(alts) && EndsSequence(rest, nested)
    requires LastSequence(alts).Empty? ==> SkipSpace(rest, true) == SkipSpace(rest, nested)
    ensures ReadAlternatives(SkipSpace(ShowAlternatives(alts) + rest, true), nested) ==
      MoreAlternatives(SkipSpace(rest, nested), nested, alts)
    decreases alts, 0
  {
    match alts
    case Only(s) => ReadShownAlternative(s, rest, nested);
    case Or(init, last) =>
      var tail := ShowSequence(last) + rest;
      var bar := "|" + (" " + tail);
      OrText(ShowAlternatives(init), ShowSequence(last), rest);
      FirstAndRest('|', " " + tail);
      BlankBefore(tail, true);
      SkipOneBlank(bar, true);
      SkipOneBlank(bar, nested);
      ReadShownAlternatives(init, " " + bar, nested);
      ReadShownAlternative(last, rest, nested);
  }

  lemma OrText(init: string, last: string, rest: string)
    ensures init + " | " + last + rest == init + (" " + ("|" + (" " + (last + rest))))
  {
    Assoc(init + " | ", last, rest);
    Assoc(init, " | ", last + rest);
    assert " | " + (last + rest) == " " + ("|" + (" " + (last + rest)));
  }

  // ----- rules and grammars

  lemma ReadShownRule(rule: Rule, rest: string)
    requires PrintableRule(rule)
    ensures ReadRule(ShowRule(rule) + rest) == Some((rule, SkipSpace(rest, true)))
  {
    var line := "\n" + rest;
    var body := ShowAlternatives(rule.body) + line;
    var sign := "::= " + body;
    RuleText(rule.name, ShowAlternatives(rule.body), rest);
    NameLength(rule.name, " " + sign);
    SkipOneBlank(sign, false);
    FirstAndRest('\n', rest);
    SkipNothing(line, false);
    ReadShownAlternatives(rule.body, line, false);
    RuleStep(rule.name, " " + sign, body, rule.body, line);
  }

  lemma RuleText(name: string, body: string, rest: string)
    ensures name + " ::= " + body + "\n" + rest == name + (" " + ("::= " + (body + ("\n" + rest))))
  {
    Assoc(name + " ::= " + body, "\n", rest);
    Assoc(name + " ::= ", body, "\n" + rest);
    Assoc(name, " ::= ", body + ("\n" + rest));
    assert " ::= " + (body + ("\n" + rest)) == " " + ("::= " + (body + ("\n" + rest)));
  }

  lemma RuleStep(name: string, after: string, body: string, alts: Alternatives, line: string)
    requires name != "" && PrefixLength(name + after, IsWordChar) == |name|
    requires SkipSpace(after, false) == "::= " + body
    requires ReadAlternatives(SkipSpace(body, true), false) == Some((alts, line)) && At(line, 0) == '\n'
    ensures ReadRule(name + after) == Some((Rule(name, alts), SkipSpace(line[1..], true)))
  {
    NameCut(name, after);
    SignCut(body);
    BlankBefore(body, true);
    RuleBehindName(name + after, |name|, "::= " + body, alts, line);
  }

  lemma SignCut(body: string)
    ensures var sign := "::= " + body;
      At(sign, 0) == ':' && At(sign, 1) == ':' && At(sign, 2) == '=' && sign[3..] == " " + body
  {
  }

  lemma RuleBehindName(s: string, n: nat, sign: string, alts: Alternatives, line: string)
    requires 0 < n == PrefixLength(s, IsWordChar) && SkipSpace(s[n..], false) == sign && |sign| > 2
    requires At(sign, 0) == ':' && At(sign, 1) == ':' && At(sign, 2) == '='
    requires ReadAlternatives(SkipSpace(sign[3..], true), false) == Some((alts, line)) && At(line, 0) == '\n'
    ensures ReadRule(s) == Some((Rule(s[..n], alts), SkipSpace(line[1..], true)))
  {
  }

  lemma NameCut(name: string, after: string)
    ensures (name + after)[..|name|] == name && (name + after)[|name|..] == after
  {
  }

  lemma BlankBefore(s: string, newlineOk: bool)
    ensures SkipSpace(" " + s, newlineOk) == SkipSpace(s, newlineOk)
  {
    assert (" " + s)[1..] == s;
  }

  lemma {:induction false} ReadShownRules(g: Grammar, acc: Grammar)
    requires PrintableGrammar(g)
    ensures ReadRules(ShowGrammar(g), acc) == Some(acc + g)
    decreases |g|
  {
    GrammarStart(g);
    if g == [] {
      assert acc + g == acc;
    } else {
      var rest := ShowGrammar(g[1..]);
      ReadShownRule(g[0], rest);
      GrammarStart(g[1..]);
      SkipNothing(rest, true);
      ReadRulesStep(ShowGrammar(g), acc, g[0], rest);
      ReadShownRules(g[1..], acc + [g[0]]);
      MoveFirst(acc, g);
    }
  }

  lemma ReadRulesStep(s: string, acc: Grammar, rule: Rule, rest: string)
    requires At(s, 0) != '\0' && ReadRule(s) == Some((rule, rest))
    ensures ReadRules(s, acc) == ReadRules(rest, acc + [rule])
  {
  }

  lemma GrammarStart(g: Grammar)
    requires PrintableGrammar(g)
    ensures if g == [] then ShowGrammar(g) == "" else IsWordChar(At(ShowGrammar(g), 0))
  {
    if g != [] {
      assert PrintableRule(g[0]);
      assert ShowGrammar(g)[0] == g[0].name[0];
    }
  }

  /** Reading back a printed grammar returns it. */
  lemma RoundTrip(g: Grammar)
    requires PrintableGrammar(g)
    ensures Read(ShowGrammar(g)) == Some(g)
  {
    GrammarStart(g);
    SkipNothing(ShowGrammar(g), true);
    ReadShownRules(g, []);
    assert [] + g == g;
  }
}
