/** Object rules as the converter writes them: read back and compiled, they generate exactly the promised objects. */
module SchemaObjectText {
  import opened Wrappers
  import opened Decimals
  import opened GbnfSyntax
  import opened GbnfLexer
  import opened GbnfReader
  import opened GbnfMeaning
  import opened GbnfLanguages
  import opened GbnfPrinter
  import opened GbnfParser
  import opened GbnfClosed
  import opened GbnfFragments
  import opened SchemaObjects
  import opened SchemaObjectLanguage
  import opened SchemaLiterals

  // ----- tokens

  const SPACE: Item := Ref("space")

  lemma NameReads(name: string)
    requires PrintableName(name)
    ensures ReadsAsItem(name, Ref(name))
  {
    assert ShowItem(Ref(name)) == name;
    ShownIsItem(Ref(name));
  }

  lemma SpaceReads(a: string, s: Sequence)
    requires a != "" && ReadsAsSequence(a, s)
    ensures ReadsAsSequence(a + " " + "space", Snoc(s, SPACE))
  {
    NameReads("space");
    BlankBeforeItem(a, "space", s, SPACE);
  }

  lemma LiteralReads(dumped: string)
    requires Ascii(dumped) && '\\' !in dumped
    ensures ReadsAsItem(FormatLiteral(dumped), Literal(Codes(dumped)))
  {
    forall rest: string, nested: bool, acc: Sequence | !IsWordChar(At(rest, 0))
      ensures ReadSequence(FormatLiteral(dumped) + rest, nested, acc) ==
        ReadSequence(SkipSpace(rest, nested), nested, Snoc(acc, Literal(Codes(dumped))))
    {
      LiteralIsItem(dumped, rest, nested);
      AtomStep(FormatLiteral(dumped) + rest, nested, acc, Literal(Codes(dumped)), SkipSpace(rest, nested));
    }
  }

  lemma AtomStep(s: string, nested: bool, acc: Sequence, item: Item, rest: string)
    requires StartsAtom(At(s, 0)) && Atom(s, nested) == Some((item, rest))
    ensures ReadSequence(s, nested, acc) == ReadSequence(rest, nested, Snoc(acc, item))
  {
  }

  // ----- the entries

  /** `"name" space ":" space value`, on strings. */
  function KeyValueText(dumped: string, ruleName: string): string {
    FormatLiteral(dumped) + " space \":\" space " + ruleName
  }

  function AdditionalText(keyRule: string, valueRule: string): string {
    keyRule + " \":\" space " + valueRule
  }

  lemma ColonValueReads(a: string, s: Sequence, ruleName: string)
    requires a != "" && ReadsAsSequence(a, s) && PrintableName(ruleName)
    ensures ReadsAs(a + " \":\" space " + ruleName, Only(Snoc(Snoc(Snoc(s, Literal([58])), SPACE), Ref(ruleName))))
  {
    TokenReads(58);
    assert "\"" + [58 as char] + "\"" == "\":\"";
    BlankBeforeItem(a, "\":\"", s, Literal([58]));
    SpaceReads(a + " " + "\":\"", Snoc(s, Literal([58])));
    NameReads(ruleName);
    var text := a + " " + "\":\"" + " " + "space";
    BlankBeforeItem(text, ruleName, Snoc(Snoc(s, Literal([58])), SPACE), Ref(ruleName));
    assert a + " \":\" space " == text + " ";
    var body := Snoc(Snoc(Snoc(s, Literal([58])), SPACE), Ref(ruleName));
    OneSequenceReads(text + " " + ruleName, body);
    AlternativesAreBody(text + " " + ruleName, Only(body));
  }

  /** The entry of a property whose dumped name has no backslash. */
  lemma KeyValueReads(name: string, dumped: string, ruleName: string)
    requires Ascii(dumped) && '\\' !in dumped && PrintableName(ruleName)
    ensures ReadsAs(KeyValueText(dumped, ruleName), KeyValue(Property(name, Codes(dumped), ruleName)))
  {
    var key := FormatLiteral(dumped);
    LiteralReads(dumped);
    OneItemReads(key, Literal(Codes(dumped)));
    SpaceReads(key, Snoc(Empty, Literal(Codes(dumped))));
    ColonValueReads(key + " " + "space", Snoc(Snoc(Empty, Literal(Codes(dumped))), SPACE), ruleName);
    assert key + " space \":\" space " == key + " " + "space" + " \":\" space ";
  }

  /** The entry of the properties that are not listed. */
  lemma AdditionalReads(keyRule: string, valueRule: string)
    requires PrintableName(keyRule) && PrintableName(valueRule)
    ensures ReadsAs(AdditionalText(keyRule, valueRule), AdditionalKeyValue(keyRule, valueRule))
  {
    NameReads(keyRule);
    OneItemReads(keyRule, Ref(keyRule));
    ColonValueReads(keyRule, Snoc(Empty, Ref(keyRule)), valueRule);
  }

  // ----- groups with blanks inside the parentheses

  function SpacedItem(item: Item): string
    requires PrintableItem(item)
    decreases item
  {
    match item
    case Group(alts) => "(" + " " + SpacedAlternatives(alts) + " " + ")"
    case Repeat(body, op) => SpacedItem(body) + ShowOperator(op)
    case _ => ShowItem(item)
  }

  function SpacedSequence(s: Sequence): string
    requires PrintableSequence(s)
    decreases s
  {
    match s
    case Empty => ""
    case Snoc(init, last) => (if init.Empty? then "" else SpacedSequence(init) + " ") + SpacedItem(last)
  }

  function SpacedAlternatives(alts: Alternatives): string
    requires PrintableAlternatives(alts)
    decreases alts
  {
    match alts
    case Only(s) => SpacedSequence(s)
    case Or(init, last) => SpacedAlternatives(init) + " | " + SpacedSequence(last)
  }

  /** No alternative is empty, at any depth. */
  predicate FullItem(item: Item)
    decreases item
  {
    match item
    case Group(alts) => Full(alts)
    case Repeat(body, _) => FullItem(body)
    case _ => true
  }

  predicate FullSequence(s: Sequence)
    decreases s
  {
    s.Snoc? && (s.init.Empty? || FullSequence(s.init)) && FullItem(s.last)
  }

  predicate Full(alts: Alternatives)
    decreases alts
  {
    match alts
    case Only(s) => FullSequence(s)
    case Or(init, last) => Full(init) && FullSequence(last)
  }

  lemma {:induction false} SpacedItemReads(item: Item)
    requires PrintableItem(item) && FullItem(item)
    ensures ReadsAsItem(SpacedItem(item), item)
    decreases item
  {
    match item
    case Group(alts) =>
      SpacedAlternativesRead(alts);
      GroupReads(SpacedAlternatives(alts), alts, " ", " ");
    case Repeat(body, op) =>
      SpacedItemReads(body);
      OperatorReads(SpacedItem(body), body, op);
    case _ => ShownIsItem(item);
  }

  lemma {:induction false} SpacedSequenceReads(s: Sequence)
    requires PrintableSequence(s) && FullSequence(s)
    ensures SpacedSequence(s) != "" && ReadsAsSequence(SpacedSequence(s), s)
    decreases s
  {
    SpacedItemReads(s.last);
    if s.init.Empty? {
      assert "" + SpacedItem(s.last) == SpacedItem(s.last);
      OneItemReads(SpacedItem(s.last), s.last);
    } else {
      SpacedSequenceReads(s.init);
      BlankBeforeItem(SpacedSequence(s.init), SpacedItem(s.last), s.init, s.last);
    }
  }

  /** The alternatives, and so the rule for the rest of a list of keys. */
  lemma {:induction false} SpacedAlternativesRead(alts: Alternatives)
    requires PrintableAlternatives(alts) && Full(alts)
    ensures ReadsAsAlternatives(SpacedAlternatives(alts), alts)
    decreases alts
  {
    match alts
    case Only(s) =>
      SpacedSequenceReads(s);
      OneSequenceReads(SpacedSequence(s), s);
    case Or(init, last) =>
      SpacedAlternativesRead(init);
      SpacedSequenceReads(last);
      BarBetween(SpacedAlternatives(init), SpacedSequence(last), init, last);
  }

  // ----- the object's text

  /** The entry rules are names. */
  predicate PrintableKeys(kv: map<string, string>, ks: seq<string>) {
    forall i :: 0 <= i < |ks| ==> ks[i] in kv && PrintableName(kv[ks[i]])
  }

  function RequiredText(kv: map<string, string>, required: seq<string>): string
    requires PrintableKeys(kv, required)
  {
    if required == [] then ""
    else
      var n := |required| - 1;
      RequiredText(kv, required[..n]) + (if n == 0 then "" else " \",\" space ") + kv[required[n]]
  }

  function ChoicesText(hasRequired: bool, alts: Alternatives): string
    requires PrintableAlternatives(alts)
  {
    " (" + (if hasRequired then " \",\" space ( " + SpacedAlternatives(alts) + " )" else SpacedAlternatives(alts)) + " )?"
  }

  function ObjectText(kv: map<string, string>, required: seq<string>, choices: Option<Alternatives>): string
    requires PrintableKeys(kv, required) && (choices.Some? ==> PrintableAlternatives(choices.value))
  {
    "\"{\" space " + RequiredText(kv, required) + (if choices.Some? then ChoicesText(required != [], choices.value) else "") + " \"}\" space"
  }

  lemma CommaReads(a: string, s: Sequence)
    requires a != "" && ReadsAsSequence(a, s)
    ensures ReadsAsSequence(a + " " + "\",\"" + " " + "space", Snoc(Snoc(s, Literal([44])), SPACE))
  {
    TokenReads(44);
    assert "\"" + [44 as char] + "\"" == "\",\"";
    BlankBeforeItem(a, "\",\"", s, Literal([44]));
    SpaceReads(a + " " + "\",\"", Snoc(s, Literal([44])));
  }

  const OPENING: string := "\"{\" space"

  lemma OpeningReads()
    ensures ReadsAsSequence(OPENING, Open())
  {
    TokenReads(123);
    assert "\"" + [123 as char] + "\"" == "\"{\"";
    OneItemReads("\"{\"", Literal([123]));
    SpaceReads("\"{\"", Snoc(Empty, Literal([123])));
    assert OPENING == "\"{\"" + " " + "space";
  }

  function Opened(kv: map<string, string>, required: seq<string>): string
    requires PrintableKeys(kv, required)
  {
    "\"{\" space " + RequiredText(kv, required)
  }

  lemma {:induction false} RequiredReads(kv: map<string, string>, required: seq<string>)
    requires PrintableKeys(kv, required)
    ensures ReadsAsSequence(Opened(kv, required), WithRequired(kv, required))
    decreases |required|
  {
    if |required| < 2 {
      FirstRequiredReads(kv, required);
    } else {
      var n := |required| - 1;
      RequiredReads(kv, required[..n]);
      NextRequiredReads(Opened(kv, required[..n]), WithRequired(kv, required[..n]), kv[required[n]]);
      NextRequiredText("\"{\" space ", RequiredText(kv, required[..n]), kv[required[n]]);
    }
  }

  lemma FirstRequiredReads(kv: map<string, string>, required: seq<string>)
    requires PrintableKeys(kv, required) && |required| < 2
    ensures ReadsAsSequence(Opened(kv, required), WithRequired(kv, required))
  {
    assert "\"{\" space " == OPENING + " ";
    OpeningReads();
    if required == [] {
      NothingIsEmpty();
      BlankBetween(OPENING, "", Open(), Empty);
    } else {
      var name := kv[required[0]];
      NameReads(name);
      BlankBeforeItem(OPENING, name, Open(), Ref(name));
      assert RequiredText(kv, required) == name;
    }
  }

  lemma NextRequiredReads(a: string, s: Sequence, name: string)
    requires a != "" && ReadsAsSequence(a, s) && PrintableName(name)
    ensures ReadsAsSequence(a + " \",\" space " + name, Snoc(Snoc(Snoc(s, Literal([44])), SPACE), Ref(name)))
  {
    CommaReads(a, s);
    NameReads(name);
    BlankBeforeItem(a + " " + "\",\"" + " " + "space", name, Snoc(Snoc(s, Literal([44])), SPACE), Ref(name));
    assert a + " \",\" space " == a + " " + "\",\"" + " " + "space" + " ";
  }

  lemma NextRequiredText(opening: string, init: string, name: string)
    ensures opening + (init + " \",\" space " + name) == opening + init + " \",\" space " + name
  {
    Assoc(opening, init + " \",\" space ", name);
    Assoc(opening, init, " \",\" space ");
  }

  /** A group with a blank before its closing parenthesis, and a question mark. */
  lemma MaybeGroupReads(a: string, s: Sequence, left: string, inside: string, body: Alternatives)
    requires a != "" && ReadsAsSequence(a, s) && Loose(left) && ReadsAsAlternatives(inside, body)
    ensures ReadsAsSequence(a + (" (" + (left + inside) + " )?"), Snoc(s, Repeat(Group(body), Maybe)))
  {
    GroupReads(inside, body, left, " ");
    OperatorReads("(" + left + inside + " " + ")", Group(body), Maybe);
    BlankBeforeItem(a, "(" + left + inside + " " + ")" + "?", s, Repeat(Group(body), Maybe));
    ChoicesTextIs(a, left, inside);
  }

  /** The group of the optional entries, its question mark included. */
  lemma ChoicesRead(a: string, s: Sequence, hasRequired: bool, alts: Alternatives)
    requires a != "" && ReadsAsSequence(a, s) && PrintableAlternatives(alts) && Full(alts)
    ensures ReadsAsSequence(a + ChoicesText(hasRequired, alts), WithOptional(s, hasRequired, Some(alts)))
  {
    var choices := SpacedAlternatives(alts);
    if hasRequired {
      CommaGroupReads(alts);
      MaybeGroupReads(a, s, " ", "\",\" space ( " + choices + " )", Only(Snoc(Comma(), Group(alts))));
      WithComma(choices);
    } else {
      SpacedAlternativesRead(alts);
      MaybeGroupReads(a, s, "", choices, alts);
      assert "" + choices == choices;
    }
  }

  lemma WithComma(choices: string)
    ensures " " + ("\",\" space ( " + choices + " )") == " \",\" space ( " + choices + " )"
  {
    assert " \",\" space ( " == " " + "\",\" space ( ";
  }

  lemma ChoicesTextIs(a: string, left: string, inside: string)
    ensures a + (" (" + (left + inside) + " )?") == a + " " + ("(" + left + inside + " " + ")" + "?")
  {
    assert " (" == " " + "(" && " )?" == " " + ")" + "?";
  }

  lemma CommaGroupReads(alts: Alternatives)
    requires PrintableAlternatives(alts) && Full(alts)
    ensures ReadsAsAlternatives("\",\" space ( " + SpacedAlternatives(alts) + " )", Only(Snoc(Comma(), Group(alts))))
  {
    var comma := "\",\"" + " " + "space";
    var group := SpacedItem(Group(alts));
    TokenReads(44);
    assert "\"" + [44 as char] + "\"" == "\",\"";
    OneItemReads("\",\"", Literal([44]));
    SpaceReads("\",\"", Snoc(Empty, Literal([44])));
    SpacedItemReads(Group(alts));
    BlankBeforeItem(comma, group, Comma(), Group(alts));
    OneSequenceReads(comma + " " + group, Snoc(Comma(), Group(alts)));
    CommaGroupText(SpacedAlternatives(alts));
  }

  lemma CommaGroupText(a: string)
    ensures "\",\" space ( " + a + " )" == "\",\"" + " " + "space" + " " + ("(" + " " + a + " " + ")")
  {
    assert " )" == " " + ")";
    assert "\",\" space ( " == "\",\"" + " " + "space" + " " + ("(" + " ");
  }

  lemma ObjectReads(kv: map<string, string>, required: seq<string>, choices: Option<Alternatives>)
    requires PrintableKeys(kv, required) && (choices.Some? ==> PrintableAlternatives(choices.value) && Full(choices.value))
    ensures ReadsAs(ObjectText(kv, required, choices), Only(Closed(WithOptional(WithRequired(kv, required), required != [], choices))))
  {
    var s := WithOptional(WithRequired(kv, required), required != [], choices);
    var text := Opened(kv, required) + (if choices.Some? then ChoicesText(required != [], choices.value) else "");
    RequiredReads(kv, required);
    if choices.Some? {
      ChoicesRead(Opened(kv, required), WithRequired(kv, required), required != [], choices.value);
    } else {
      assert Opened(kv, required) + "" == Opened(kv, required);
    }
    TokenReads(125);
    assert "\"" + [125 as char] + "\"" == "\"}\"";
    BlankBeforeItem(text, "\"}\"", s, Literal([125]));
    SpaceReads(text + " " + "\"}\"", Snoc(s, Literal([125])));
    var whole := text + " " + "\"}\"" + " " + "space";
    ClosingText(text);
    assert whole == ObjectText(kv, required, choices);
    OneSequenceReads(whole, Closed(s));
    AlternativesAreBody(whole, Only(Closed(s)));
  }

  lemma ClosingText(text: string)
    ensures text + " \"}\" space" == text + " " + "\"}\"" + " " + "space"
  {
    assert " \"}\" space" == " " + "\"}\"" + " " + "space";
  }

  /** Putting the string together. */
  method EmitRequired(start: string, kv: map<string, string>, required: seq<string>) returns (rule: string)
    requires PrintableKeys(kv, required)
    ensures rule == start + RequiredText(kv, required)
  {
    rule := start;
    for i := 0 to |required|
      invariant rule == start + RequiredText(kv, required[..i])
    {
      if i > 0 {
        rule := rule + " \",\" space ";
      }
      rule := rule + kv[required[i]];
      RequiredTextNext(start, kv, required, i);
    }
    assert required[..|required|] == required;
  }

  lemma RequiredTextNext(start: string, kv: map<string, string>, required: seq<string>, i: nat)
    requires PrintableKeys(kv, required) && i < |required|
    ensures start + RequiredText(kv, required[..i + 1]) ==
      start + RequiredText(kv, required[..i]) + (if i == 0 then "" else " \",\" space ") + kv[required[i]]
  {
    assert required[..i + 1][..i] == required[..i];
    Assoc(start, RequiredText(kv, required[..i]), if i == 0 then "" else " \",\" space ");
    Assoc(start, RequiredText(kv, required[..i]) + (if i == 0 then "" else " \",\" space "), kv[required[i]]);
  }

  method EmitChoices(start: string, hasRequired: bool, alts: Alternatives) returns (rule: string)
    requires PrintableAlternatives(alts)
    ensures rule == start + ChoicesText(hasRequired, alts)
  {
    rule := start + " (";
    if hasRequired {
      rule := rule + " \",\" space ( ";
    }
    rule := rule + SpacedAlternatives(alts);
    if hasRequired {
      rule := rule + " )";
    }
    rule := rule + " )?";
  }

  method EmitObject(kv: map<string, string>, required: seq<string>, choices: Option<Alternatives>) returns (rule: string)
    requires PrintableKeys(kv, required) && (choices.Some? ==> PrintableAlternatives(choices.value))
    ensures rule == ObjectText(kv, required, choices)
  {
    rule := EmitRequired("\"{\" space ", kv, required);
    if choices.Some? {
      rule := EmitChoices(rule, required != [], choices.value);
    }
    rule := rule + " \"}\" space";
  }

  // ----- the names are such that all this can be read

  lemma {:induction false} EscapeIsName(s: string)
    ensures forall i :: 0 <= i < |Escape(s)| ==> IsWordChar(Escape(s)[i])
    ensures s != "" ==> Escape(s) != ""
    decreases |s|
  {
    if s != "" {
      EscapeIsName(if NameChar(s[0]) then s[1..] else DropInvalid(s[1..]));
    }
  }

  lemma DigitsAreWordChars(n: nat)
    ensures forall i :: 0 <= i < |Decimal(n)| ==> IsWordChar(Decimal(n)[i])
  {
    forall i | 0 <= i < |Decimal(n)|
      ensures IsWordChar(Decimal(n)[i])
    {
      assert IsDigit(Decimal(n)[i]);
    }
  }

  /** Every key that is made is a name the parser accepts. */
  lemma KeyIsPrintable(rules: Rules, name: string, rule: Alternatives, key: string)
    requires name != "" && IsKeyFor(rules, name, rule, key)
    ensures PrintableName(key)
  {
    EscapeIsName(name);
    if !Free(rules, Escape(name), rule) {
      var i: nat :| Numbered(rules, Escape(name), rule, key, i);
      DigitsAreWordChars(i);
    }
  }

  predicate WritableItem(item: Item) {
    PrintableItem(item) && FullItem(item)
  }

  predicate Writable(s: Sequence) {
    PrintableSequence(s) && FullSequence(s)
  }

  lemma SnocWritable(init: Sequence, last: Item)
    requires (init.Empty? || Writable(init)) && WritableItem(last)
    ensures Writable(Snoc(init, last))
  {
  }

  lemma RefWritable(name: string)
    requires PrintableName(name)
    ensures WritableItem(Ref(name)) && WritableItem(CommaRef(name))
  {
    assert WritableItem(Literal([44])) && PrintableName("space");
    SnocWritable(Empty, Literal([44]));
    SnocWritable(Snoc(Empty, Literal([44])), SPACE);
    SnocWritable(Comma(), Ref(name));
    assert PrintableAlternatives(Only(Snoc(Comma(), Ref(name)))) && Full(Only(Snoc(Comma(), Ref(name))));
  }

  lemma HeadWritable(name: string, key: string, firstIsOptional: bool)
    requires PrintableName(name)
    ensures Writable(Head(name, key, firstIsOptional))
  {
    RefWritable(name);
    var op := if key == STAR then Star else Maybe;
    assert WritableItem(Repeat(CommaRef(name), op));
    SnocWritable(Empty, Repeat(CommaRef(name), op));
    SnocWritable(Empty, Ref(name));
    if key == STAR {
      SnocWritable(Snoc(Empty, Ref(name)), Repeat(CommaRef(name), op));
    }
  }

  ghost predicate PrintableRules(rules: Rules) {
    forall name :: name in rules ==> PrintableName(name)
  }

  lemma RefsWritable(rules: Rules, kv: map<string, string>, ks: seq<string>, firstIsOptional: bool, s: Sequence)
    requires Refs(rules, kv, ks, firstIsOptional, s) && PrintableKeys(kv, ks) && PrintableRules(rules)
    ensures Writable(s)
  {
    HeadWritable(kv[ks[0]], ks[0], firstIsOptional);
    if |ks| > 1 {
      RefWritable(s.last.name);
      SnocWritable(s.init, s.last);
    }
  }

  lemma {:induction false} ChoicesWritable(rules: Rules, kv: map<string, string>, ks: seq<string>, n: nat, alts: Alternatives)
    requires 0 < n <= |ks| && Choices(rules, kv, ks, n, alts) && PrintableKeys(kv, ks) && PrintableRules(rules)
    ensures PrintableAlternatives(alts) && Full(alts)
    decreases n
  {
    if n == 1 {
      RefsWritable(rules, kv, ks, false, alts.only);
    } else {
      ChoicesWritable(rules, kv, ks, n - 1, alts.init);
      RefsWritable(rules, kv, ks[n - 1..], false, alts.last);
    }
  }

  /** The rule for the rest of a list of keys is read as meant. */
  lemma RestReads(rules: Rules, kv: map<string, string>, ks: seq<string>, s: Sequence)
    requires Refs(rules, kv, ks, true, s) && PrintableKeys(kv, ks) && PrintableRules(rules)
    ensures Writable(s) && ReadsAs(SpacedSequence(s), Only(s))
  {
    RefsWritable(rules, kv, ks, true, s);
    SpacedSequenceReads(s);
    OneSequenceReads(SpacedSequence(s), s);
    AlternativesAreBody(SpacedSequence(s), Only(s));
  }

  /** `s` is an object rule and `text` what the converter writes for it. */
  ghost predicate WritesObject(rules: Rules, kv: map<string, string>, required: seq<string>, optional: seq<string>, s: Sequence, text: string) {
    && PrintableKeys(kv, required) && Named(kv, optional)
    && if optional == [] then s == Closed(WithRequired(kv, required)) && text == ObjectText(kv, required, None)
       else exists alts :: WritesChoices(rules, kv, required, optional, s, text, alts)
  }

  ghost predicate WritesChoices(rules: Rules, kv: map<string, string>, required: seq<string>, optional: seq<string>, s: Sequence,
                                text: string, alts: Alternatives) {
    && PrintableKeys(kv, required) && PrintableAlternatives(alts) && Full(alts)
    && HasChoices(rules, kv, required, optional, s, alts) && text == ObjectText(kv, required, Some(alts))
  }

  /** Every object rule over printable names has its text, and is read back from it. */
  lemma ObjectIsWritten(rules: Rules, kv: map<string, string>, required: seq<string>, optional: seq<string>, s: Sequence) returns (text: string)
    requires IsObject(rules, kv, required, optional, s)
    requires PrintableKeys(kv, required) && PrintableKeys(kv, optional) && PrintableRules(rules)
    ensures WritesObject(rules, kv, required, optional, s, text) && ReadsAs(text, Only(s))
  {
    if optional == [] {
      text := ObjectText(kv, required, None);
    } else {
      var alts :| HasChoices(rules, kv, required, optional, s, alts);
      ChoicesWritable(rules, kv, optional, |optional|, alts);
      text := ObjectText(kv, required, Some(alts));
      assert WritesChoices(rules, kv, required, optional, s, text, alts);
    }
    WrittenObjectReads(rules, kv, required, optional, s, text);
  }

  lemma WrittenObjectReads(rules: Rules, kv: map<string, string>, required: seq<string>, optional: seq<string>, s: Sequence, text: string)
    requires WritesObject(rules, kv, required, optional, s, text)
    ensures IsObject(rules, kv, required, optional, s) && ReadsAs(text, Only(s))
  {
    if optional == [] {
      ObjectReads(kv, required, None);
    } else {
      var alts :| WritesChoices(rules, kv, required, optional, s, text, alts);
      ObjectReads(kv, required, Some(alts));
    }
  }

  // ----- compiled

  /** Braces around the required members in order and a selection of the optional ones. */
  ghost function Objects(g: Rules, kv: map<string, string>, required: seq<string>, optional: seq<string>): Lang {
    Cat(Cat(Cat(OfSequence(g, Open()), Members(g, kv, required, optional)), OfItem(g, Literal([125]))), OfItem(g, Ref("space")))
  }

  lemma ObjectIsItsBody(rules: Rules, name: string, kv: map<string, string>, required: seq<string>, optional: seq<string>,
                        s: Sequence, w: Word)
    requires name in rules && rules[name] == Only(s) && IsObject(rules, kv, required, optional, s)
    ensures InLanguage(rules, name, w) <==> w in Objects(rules, kv, required, optional)
  {
    ObjectLanguage(rules, kv, required, optional, s);
    RefLanguage(rules, name);
    OnlyLanguage(rules, s);
    assert InLanguage(rules, name, w) <==> InItem(rules, Ref(name), w);
  }

  /** From the strings of the converter to the compiled rules: if the other lines are read as meant, what is generated under the
      object's name are the objects. */
  lemma {:induction false} WrittenObjectCompiles(lines: seq<Line>, name: string, kv: map<string, string>, required: seq<string>, optional: seq<string>,
                              s: Sequence, text: string, w: Word)
    requires forall i :: 0 <= i < |lines| ==> PrintableName(lines[i].name)
    requires forall i :: 0 <= i < |lines| && lines[i] != Line(lines[i].name, text, Only(s)) ==> ReadsAs(lines[i].text, lines[i].body)
    requires DefinesItsNames(Meant(lines)) && name in Bodies(Meant(lines)) && Bodies(Meant(lines))[name] == Only(s)
    requires WritesObject(Bodies(Meant(lines)), kv, required, optional, s, text)
    ensures var t := Compile(FormatGrammar(lines));
      name in t.ids && (Generated(t, t.ids[name], w) <==> w in Objects(Bodies(Meant(lines)), kv, required, optional))
  {
    WrittenObjectReads(Bodies(Meant(lines)), kv, required, optional, s, text);
    WrittenTableCompiles(lines, name, w);
    ObjectIsItsBody(Bodies(Meant(lines)), name, kv, required, optional, s, w);
  }

  /** The same for a table written by the printer. */
  lemma PrintedObjectCompiles(g: Grammar, name: string, kv: map<string, string>, required: seq<string>, optional: seq<string>,
                              s: Sequence, w: Word)
    requires PrintableGrammar(g) && DefinesItsNames(g) && name in Bodies(g) && Bodies(g)[name] == Only(s)
    requires IsObject(Bodies(g), kv, required, optional, s)
    ensures var t := Compile(ShowGrammar(g));
      name in t.ids && (Generated(t, t.ids[name], w) <==> w in Objects(Bodies(g), kv, required, optional))
  {
    PrintedGrammarCompiles(g, name, w);
    ObjectIsItsBody(Bodies(g), name, kv, required, optional, s, w);
  }
}
