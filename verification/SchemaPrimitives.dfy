/** The rules for blanks and for one character of a string: their texts, and their words. */
module SchemaPrimitives {
  import opened Wrappers
  import opened Decimals
  import opened Languages
  import opened GbnfSyntax
  import opened GbnfLexer
  import opened GbnfReader
  import opened GbnfMeaning
  import opened GbnfLanguages
  import opened GbnfPrinter
  import opened GbnfSpelling
  import opened GbnfFragments
  import opened SchemaStrings

  // ----- their words

  /** One character of a class. */
  lemma ClassWords(g: Rules, negated: bool, parts: seq<Part>, w: Word)
    requires parts != []
    ensures w in OfItem(g, CharClass(negated, parts)) <==> |w| == 1 && ClassMatches(negated, parts, w[0])
  {
    if |w| == 1 && ClassMatches(negated, parts, w[0]) {
      assert ItemMatches(g, 0, CharClass(negated, parts), w);
      assert InItem(g, CharClass(negated, parts), w);
    }
  }

  predicate IsIn(parts: seq<Part>, w: Word) {
    forall i :: 0 <= i < |w| ==> ClassMatches(false, parts, w[i])
  }

  lemma {:induction false} PowerOfClass(g: Rules, parts: seq<Part>, k: nat, w: Word)
    requires parts != []
    ensures Power(OfItem(g, CharClass(false, parts)), k, w) <==> |w| == k && IsIn(parts, w)
    decreases k
  {
    var lang := OfItem(g, CharClass(false, parts));
    if k > 0 {
      if Power(lang, k, w) {
        var i := PowerUncons(lang, k, w);
        ClassWords(g, false, parts, w[..i]);
        PowerOfClass(g, parts, k - 1, w[i..]);
        assert w == w[..i] + w[i..];
      }
      if |w| == k && IsIn(parts, w) {
        ClassWords(g, false, parts, w[..1]);
        PowerOfClass(g, parts, k - 1, w[1..]);
        PowerCons(lang, k - 1, w, 1);
      }
    }
  }

  lemma LiteralIs(g: Rules, chars: Word, w: Word)
    ensures w in OfItem(g, Literal(chars)) <==> w == chars
  {
    assert ItemMatches(g, 0, Literal(chars), chars);
    assert InItem(g, Literal(chars), chars);
  }

  lemma TwoParts(a: Part, b: Part, c: nat)
    ensures ClassMatches(false, [a, b], c) <==> PartMatches(a, c) || PartMatches(b, c)
  {
    assert PartMatches([a, b][0], c) <==> PartMatches(a, c);
    assert PartMatches([a, b][1], c) <==> PartMatches(b, c);
  }

  /** Nothing, a blank, or a line end with up to twenty blanks and tabs. */
  predicate IsSpaceWord(w: Word) {
    || w == [] || w == [' ' as int]
    || (1 <= |w| <= 21 && w[0] == '\n' as int && forall i :: 1 <= i < |w| ==> w[i] == ' ' as int || w[i] == '\t' as int)
  }

  lemma IndentWords(g: Rules, w: Word)
    ensures w in OfItem(g, Repeat(CharClass(false, [Single(32), Single(9)]), Between(0, 20))) <==>
      |w| <= 20 && forall i :: 0 <= i < |w| ==> w[i] == 32 || w[i] == 9
  {
    var parts := [Single(32), Single(9)];
    var item := CharClass(false, parts);
    RepeatLanguage(g, item, Between(0, 20), w);
    forall k: nat
      ensures Power(OfItem(g, item), k, w) <==> |w| == k && IsIn(parts, w)
    {
      PowerOfClass(g, parts, k, w);
    }
    forall c: nat
      ensures ClassMatches(false, parts, c) <==> c == 32 || c == 9
    {
      TwoParts(Single(32), Single(9), c);
    }
    if |w| <= 20 && IsIn(parts, w) {
      assert CountAllowed(Between(0, 20), |w|) && Power(OfItem(g, item), |w|, w);
    }
  }

  lemma SpaceWords(g: Rules, w: Word)
    requires "space" in g && g["space"] == SpaceBody()
    ensures w in OfItem(g, Ref("space")) <==> IsSpaceWord(w)
  {
    var newline := Snoc(Empty, Literal([10]));
    var blanks := Repeat(CharClass(false, [Single(32), Single(9)]), Between(0, 20));
    RefLanguage(g, "space");
    OrLanguage(g, Or(Only(Empty), Snoc(Empty, Literal([32]))), Snoc(newline, blanks));
    OrLanguage(g, Only(Empty), Snoc(Empty, Literal([32])));
    OnlyLanguage(g, Empty);
    EmptyLanguage(g);
    OneLanguage(g, Literal([32]));
    OneLanguage(g, Literal([10]));
    SnocLanguage(g, newline, blanks);
    LiteralIs(g, [32], w);
    if w in Cat(OfSequence(g, newline), OfItem(g, blanks)) {
      var i: nat :| SplitsAt(OfSequence(g, newline), OfItem(g, blanks), w, i);
      LiteralIs(g, [10], w[..i]);
      IndentWords(g, w[i..]);
      assert w == w[..i] + w[i..];
    }
    if w != [] && w[0] == 10 && IsSpaceWord(w) {
      LiteralIs(g, [10], w[..1]);
      IndentWords(g, w[1..]);
      assert SplitsAt(OfSequence(g, newline), OfItem(g, blanks), w, 1);
    }
  }

  function CharBody(): Alternatives {
    Or(Only(Snoc(Empty, CharUnescaped())), CharEscaped())
  }

  predicate IsHexCode(c: nat) {
    '0' as int <= c <= '9' as int || 'a' as int <= c <= 'f' as int || 'A' as int <= c <= 'F' as int
  }

  /** One character of a JSON string, as it may be written: any but quotes, backslashes and controls, or an escape. */
  predicate IsCharWord(w: Word) {
    || (|w| == 1 && w[0] >= 32 && w[0] !in ['"' as int, '\\' as int, 127])
    || (|w| == 2 && w[0] == '\\' as int &&
         w[1] in ['"' as int, '\\' as int, 'b' as int, 'f' as int, 'n' as int, 'r' as int, 't' as int])
    || (|w| == 6 && w[0] == '\\' as int && w[1] == 'u' as int && forall i :: 2 <= i < 6 ==> IsHexCode(w[i]))
  }

  function Short(): seq<Part> {
    [Single(34), Single(92), Single(98), Single(102), Single(110), Single(114), Single(116)]
  }

  function Hex(): seq<Part> {
    [Span(48, 57), Span(97, 102), Span(65, 70)]
  }

  lemma UnescapedMatches(c: nat)
    ensures ClassMatches(true, CharUnescaped().parts, c) <==> c >= 32 && c != 34 && c != 92 && c != 127
  {
    var parts := CharUnescaped().parts;
    assert PartMatches(parts[0], c) <==> c == 34;
    assert PartMatches(parts[1], c) <==> c == 92;
    assert PartMatches(parts[2], c) <==> c == 127;
    assert PartMatches(parts[3], c) <==> c <= 31;
  }

  lemma ShortMatches(c: nat)
    ensures ClassMatches(false, Short(), c) <==> c in [34, 92, 98, 102, 110, 114, 116]
  {
    var parts := Short();
    assert PartMatches(parts[0], c) <==> c == 34;
    assert PartMatches(parts[1], c) <==> c == 92;
    assert PartMatches(parts[2], c) <==> c == 98;
    assert PartMatches(parts[3], c) <==> c == 102;
    assert PartMatches(parts[4], c) <==> c == 110;
    assert PartMatches(parts[5], c) <==> c == 114;
    assert PartMatches(parts[6], c) <==> c == 116;
  }

  lemma HexMatches(c: nat)
    ensures ClassMatches(false, Hex(), c) <==> IsHexCode(c)
  {
    var parts := Hex();
    assert PartMatches(parts[0], c) <==> 48 <= c <= 57;
    assert PartMatches(parts[1], c) <==> 97 <= c <= 102;
    assert PartMatches(parts[2], c) <==> 65 <= c <= 70;
  }

  /** What may stand behind the backslash. */
  lemma BehindBackslash(g: Rules, w: Word)
    ensures w in OfItem(g, CharEscaped().last) <==>
      || (|w| == 1 && w[0] in [34, 92, 98, 102, 110, 114, 116])
      || (|w| == 5 && w[0] == 117 && forall i :: 1 <= i < 5 ==> IsHexCode(w[i]))
  {
    var u := Snoc(Empty, Literal([117]));
    var four := Repeat(CharClass(false, Hex()), Exactly(4));
    GroupLanguage(g, Or(Only(Snoc(Empty, CharClass(false, Short()))), Snoc(u, four)));
    OrLanguage(g, Only(Snoc(Empty, CharClass(false, Short()))), Snoc(u, four));
    OnlyLanguage(g, Snoc(Empty, CharClass(false, Short())));
    OneLanguage(g, CharClass(false, Short()));
    ClassWords(g, false, Short(), w);
    if |w| == 1 {
      ShortMatches(w[0]);
    }
    SnocLanguage(g, u, four);
    OneLanguage(g, Literal([117]));
    if w in Cat(OfSequence(g, u), OfItem(g, four)) {
      var i: nat :| SplitsAt(OfSequence(g, u), OfItem(g, four), w, i);
      LiteralIs(g, [117], w[..i]);
      FourWords(g, w[i..]);
      assert w == w[..i] + w[i..];
    }
    if |w| == 5 && w[0] == 117 && forall i :: 1 <= i < 5 ==> IsHexCode(w[i]) {
      LiteralIs(g, [117], w[..1]);
      FourWords(g, w[1..]);
      assert SplitsAt(OfSequence(g, u), OfItem(g, four), w, 1);
    }
  }

  lemma FourWords(g: Rules, w: Word)
    ensures w in OfItem(g, Repeat(CharClass(false, Hex()), Exactly(4))) <==> |w| == 4 && forall i :: 0 <= i < 4 ==> IsHexCode(w[i])
  {
    RepeatLanguage(g, CharClass(false, Hex()), Exactly(4), w);
    PowerOfClass(g, Hex(), 4, w);
    forall c: nat
      ensures ClassMatches(false, Hex(), c) <==> IsHexCode(c)
    {
      HexMatches(c);
    }
    assert forall k: nat :: CountAllowed(Exactly(4), k) <==> k == 4;
  }

  lemma CharWords(g: Rules, w: Word)
    requires "char" in g && g["char"] == CharBody()
    ensures w in OfItem(g, Ref("char")) <==> IsCharWord(w)
  {
    RefLanguage(g, "char");
    OrLanguage(g, Only(Snoc(Empty, CharUnescaped())), CharEscaped());
    OnlyLanguage(g, Snoc(Empty, CharUnescaped()));
    OneLanguage(g, CharUnescaped());
    ClassWords(g, true, CharUnescaped().parts, w);
    if |w| == 1 {
      UnescapedMatches(w[0]);
    }
    ClassThen(g, OneChar(92), CharEscaped().last, w);
    if w != [] {
      assert ClassMatches(false, [Single(92)], w[0]) <==> w[0] == 92 by {
        assert PartMatches([Single(92)][0], w[0]) <==> w[0] == 92;
      }
      BehindBackslash(g, w[1..]);
    }
  }

  // ----- their texts

  /** A text that is read as one part of a class. */
  ghost predicate ReadsAsPart(text: string, part: Part) {
    text != "" && text[0] !in "]-^" && forall rest: string :: At(rest, 0) != '-' ==> ClassPart(text + rest) == Some((part, rest))
  }

  ghost predicate ReadsAsParts(text: string, parts: seq<Part>) {
    (text != "" ==> text[0] !in "-^") &&
    forall rest: string, acc: seq<Part> :: ClassParts(text + ("]" + rest), acc) == Some((acc + parts, rest))
  }

  lemma SingleReads(text: string, c: nat)
    requires Spells(text, c) && text != "" && text[0] !in "]-^"
    ensures ReadsAsPart(text, Single(c))
  {
    forall rest: string | At(rest, 0) != '-'
      ensures ClassPart(text + rest) == Some((Single(c), rest))
    {
      SpelledReads(text, c, rest);
    }
  }

  lemma SpanReads(a: string, lo: nat, b: string, hi: nat)
    requires Spells(a, lo) && Spells(b, hi) && a != "" && b != "" && a[0] !in "]-^" && b[0] != ']'
    ensures ReadsAsPart(a + ("-" + b), Span(lo, hi))
  {
    forall rest: string
      ensures ClassPart(a + ("-" + b) + rest) == Some((Span(lo, hi), rest))
    {
      var high := b + rest;
      SpelledReads(b, hi, rest);
      SpelledReads(a, lo, "-" + high);
      Assoc(a, "-" + b, rest);
      Assoc("-", b, rest);
      FirstAndRest('-', high);
      assert At("-" + high, 1) == At(high, 0) == b[0];
    }
  }

  lemma NoParts()
    ensures ReadsAsParts("", [])
  {
    forall rest: string, acc: seq<Part>
      ensures ClassParts("" + ("]" + rest), acc) == Some((acc + [], rest))
    {
      assert "" + ("]" + rest) == "]" + rest && acc + [] == acc;
      FirstAndRest(']', rest);
    }
  }

  lemma MoreParts(a: string, part: Part, b: string, parts: seq<Part>)
    requires ReadsAsPart(a, part) && ReadsAsParts(b, parts)
    ensures ReadsAsParts(a + b, [part] + parts)
  {
    forall rest: string, acc: seq<Part>
      ensures ClassParts(a + b + ("]" + rest), acc) == Some((acc + ([part] + parts), rest))
    {
      var after := b + ("]" + rest);
      Assoc(a, b, "]" + rest);
      PartThen(a + after, part, after, acc);
      Then(acc, part, parts);
    }
  }

  lemma Then(acc: seq<Part>, part: Part, parts: seq<Part>)
    ensures acc + [part] + parts == acc + ([part] + parts)
  {
  }

  lemma PartThen(s: string, part: Part, after: string, acc: seq<Part>)
    requires ClassPart(s) == Some((part, after)) && At(s, 0) != ']'
    ensures ClassParts(s, acc) == ClassParts(after, acc + [part])
  {
  }

  lemma ClassReads(negated: bool, text: string, parts: seq<Part>)
    requires ReadsAsParts(text, parts)
    ensures ReadsAsItem((if negated then "[^" else "[") + text + "]", CharClass(negated, parts))
  {
    var opening := if negated then "[^" else "[";
    forall rest: string, nested: bool, acc: Sequence | !IsWordChar(At(rest, 0))
      ensures ReadSequence(opening + text + "]" + rest, nested, acc) ==
        ReadSequence(SkipSpace(rest, nested), nested, Snoc(acc, CharClass(negated, parts)))
    {
      var after := text + ("]" + rest);
      assert ClassParts(after, []) == Some(([] + parts, rest));
      assert [] + parts == parts;
      Assoc(opening + text, "]", rest);
      Assoc(opening, text, "]" + rest);
      AtomClass(opening + after, negated, after, parts, rest, nested);
      ItemStep(opening + after, nested, acc, CharClass(negated, parts), SkipSpace(rest, nested));
    }
  }

  lemma ItemStep(s: string, nested: bool, acc: Sequence, item: Item, rest: string)
    requires StartsAtom(At(s, 0)) && Atom(s, nested) == Some((item, rest))
    ensures ReadSequence(s, nested, acc) == ReadSequence(rest, nested, Snoc(acc, item))
  {
  }

  /** A character that is written as it is. */
  lemma PlainSpells(c: char)
    requires '\0' < c < 128 as char && c != '\\'
    ensures Spells([c], c as int)
  {
    assert ByteText([c as int]) == [c];
  }

  lemma PlainReads(c: char)
    requires '\0' < c < 128 as char && c !in "\\]-^"
    ensures ReadsAsPart([c], Single(c as int))
  {
    PlainSpells(c);
    SingleReads([c], c as int);
  }

  lemma EscapeSpells(letter: char, c: nat)
    requires ShortEscape(letter, c)
    ensures Spells(['\\', letter], c)
  {
  }

  lemma HexSpellsTwo(high: char, low: char, c: nat)
    requires c < 256 && IsDigitFor(high, c / 16) && IsDigitFor(low, c % 16)
    ensures Spells("\\x" + [high, low], c)
  {
    var digits := [high, low];
    assert digits[..1] == [high] && [high][..0] == "";
    assert HexSpells("", c / 16 / 16);
    assert HexSpells([high], c / 16);
    assert HexSpells(digits, c);
    var text := "\\x" + digits;
    assert text[..2] == "\\x" && text[2..] == digits;
  }

  /** A literal that is one escape. */
  lemma EscapedLiteral(letter: char, c: nat)
    requires ShortEscape(letter, c)
    ensures ReadsAsItem("\"" + ['\\', letter] + "\"", Literal([c]))
  {
    var text := ['\\', letter];
    EscapeSpells(letter, c);
    forall rest: string, nested: bool, acc: Sequence | !IsWordChar(At(rest, 0))
      ensures ReadSequence("\"" + text + "\"" + rest, nested, acc) == ReadSequence(SkipSpace(rest, nested), nested, Snoc(acc, Literal([c])))
    {
      var after := text + ("\"" + rest);
      Assoc("\"" + text, "\"", rest);
      Assoc("\"", text, "\"" + rest);
      FirstAndRest('"', after);
      SpelledReads(text, c, "\"" + rest);
      OneThenEnd(after, c, rest);
      AtomLiteral("\"" + after, after, [c], rest, nested);
      ItemStep("\"" + after, nested, acc, Literal([c]), SkipSpace(rest, nested));
    }
  }

  lemma OneThenEnd(s: string, c: nat, rest: string)
    requires Character(s) == Some((c, "\"" + rest)) && At(s, 0) != '"'
    ensures LiteralChars(s, []) == Some(([c], rest))
  {
    FirstAndRest('"', rest);
    assert [] + [c] == [c];
  }

  /** An empty alternative in front of a bar. */
  lemma NothingOr(b: string, s: Sequence)
    requires b != "" && ReadsAsSequence(b, s)
    ensures ReadsAsAlternatives("| " + b, Or(Only(Empty), s))
  {
    forall rest: string, nested: bool | EndsSequence(rest, nested)
      ensures ReadAlternatives(SkipSpace("| " + b + rest, true), nested) ==
        MoreAlternatives(SkipSpace(rest, nested), nested, Or(Only(Empty), s))
    {
      var next := b + rest;
      var bar := "|" + (" " + next);
      assert "| " + b + rest == bar by {
        assert "| " == "|" + " ";
        Assoc("| ", b, rest);
        Assoc("|", " ", next);
      }
      FirstAndRest('|', " " + next);
      SkipNothing(bar, true);
      StartStays(b, rest, true);
      StartStays(b, rest, nested);
      SequenceStops(next, nested, s, SkipSpace(rest, nested));
      BlankBefore(next, true);
      BarFirst(bar, next, nested, s, SkipSpace(rest, nested));
    }
  }

  lemma BarFirst(bar: string, next: string, nested: bool, s: Sequence, end: string)
    requires At(bar, 0) == '|' && SkipSpace(bar[1..], true) == next && ReadSequence(next, nested, Empty) == Some((s, end))
    ensures ReadAlternatives(bar, nested) == MoreAlternatives(end, nested, Or(Only(Empty), s))
  {
  }

  const SPACE_TEXT: string := "| \" \" | \"\\n\" [ \\t]{0,20}"

  lemma IndentParts()
    ensures ReadsAsParts([' '] + (['\\', 't'] + ""), [Single(32)] + ([Single(9)] + []))
  {
    NoParts();
    EscapeSpells('t', 9);
    SingleReads(['\\', 't'], 9);
    PlainReads(' ');
    MoreParts(['\\', 't'], Single(9), "", []);
    MoreParts([' '], Single(32), ['\\', 't'] + "", [Single(9)] + []);
  }

  lemma IndentText()
    ensures "[" + ([' '] + (['\\', 't'] + "")) + "]" == "[ \\t]" && "[ \\t]" + "{0,20}" == "[ \\t]{0,20}"
    ensures [Single(32)] + ([Single(9)] + []) == [Single(32), Single(9)]
  {
  }

  lemma IndentReads()
    ensures ReadsAsItem("[ \\t]{0,20}", Repeat(CharClass(false, [Single(32), Single(9)]), Between(0, 20)))
  {
    IndentParts();
    IndentText();
    ClassReads(false, [' '] + (['\\', 't'] + ""), [Single(32), Single(9)]);
    Twenty();
    Repeated("[ \\t]", [Single(32), Single(9)], Between(0, 20));
  }

  /** A class and its operator. */
  lemma Repeated(text: string, parts: seq<Part>, op: Repetition)
    requires ReadsAsItem(text, CharClass(false, parts)) && parts != [] && PrintableOperator(op)
    ensures ReadsAsItem(text + ShowOperator(op), Repeat(CharClass(false, parts), op))
  {
    OperatorReads(text, CharClass(false, parts), op);
  }

  lemma Twenty()
    ensures ShowOperator(Between(0, 20)) == "{0,20}" && ShowOperator(Exactly(4)) == "{4}"
  {
    assert Decimal(0) == "0" && Decimal(2) == "2" && Decimal(4) == "4";
    assert Decimal(20) == Decimal(2) + "0";
  }

  lemma SpaceText(blank: string, newline: string, indent: string)
    requires blank == "\" \"" && newline == "\"" + ['\\', 'n'] + "\"" && indent == "[ \\t]{0,20}"
    ensures "| " + blank + " | " + (newline + " " + indent) == SPACE_TEXT
  {
  }

  /** The text of the rule for blanks is read as its body. */
  lemma SpaceReads()
    ensures ReadsAs(SPACE_TEXT, SpaceBody())
  {
    var blank, newline, indent := "\" \"", "\"" + ['\\', 'n'] + "\"", "[ \\t]{0,20}";
    BlankLiteral();
    EscapedLiteral('n', 10);
    IndentReads();
    SpaceText(blank, newline, indent);
    SpacePieces(blank, newline, indent);
    AlternativesAreBody(SPACE_TEXT, SpaceBody());
  }

  lemma BlankLiteral()
    ensures ReadsAsItem("\" \"", Literal([32]))
  {
    TokenReads(32);
    assert "\"" + [32 as char] + "\"" == "\" \"";
  }

  lemma SpacePieces(blank: string, newline: string, indent: string)
    requires ReadsAsItem(blank, Literal([32])) && ReadsAsItem(newline, Literal([10]))
    requires ReadsAsItem(indent, Repeat(CharClass(false, [Single(32), Single(9)]), Between(0, 20)))
    ensures ReadsAsAlternatives("| " + blank + " | " + (newline + " " + indent), SpaceBody())
  {
    var item := Repeat(CharClass(false, [Single(32), Single(9)]), Between(0, 20));
    OneItemReads(blank, Literal([32]));
    NothingOr(blank, Snoc(Empty, Literal([32])));
    OneItemReads(newline, Literal([10]));
    BlankBeforeItem(newline, indent, Snoc(Empty, Literal([10])), item);
    BarBetween("| " + blank, newline + " " + indent, Or(Only(Empty), Snoc(Empty, Literal([32]))), Snoc(Snoc(Empty, Literal([10])), item));
  }

  const CHAR_TEXT: string := "[^\"\\\\\\x7F\\x00-\\x1F]" + " | " + ("[\\\\]" + " " + "([\"\\\\bfnrt] | \"u\" [0-9a-fA-F]{4})")

  lemma ControlsRead()
    ensures ReadsAsParts("\\x00" + ("-" + "\\x1F") + "", [Span(0, 31)] + [])
  {
    NoParts();
    HexSpellsTwo('0', '0', 0);
    HexSpellsTwo('1', 'F', 31);
    assert "\\x" + ['0', '0'] == "\\x00" && "\\x" + ['1', 'F'] == "\\x1F";
    SpanReads("\\x00", 0, "\\x1F", 31);
    MoreParts("\\x00" + ("-" + "\\x1F"), Span(0, 31), "", []);
  }

  lemma DeleteReads()
    ensures ReadsAsPart("\\x7F", Single(127)) && ReadsAsPart("\\\\", Single(92)) && ReadsAsPart("\"", Single(34))
  {
    HexSpellsTwo('7', 'F', 127);
    assert "\\x" + ['7', 'F'] == "\\x7F";
    SingleReads("\\x7F", 127);
    EscapeSpells('\\', 92);
    SingleReads("\\\\", 92);
    PlainReads('"');
  }

  lemma UnescapedReads()
    ensures ReadsAsItem("[^\"\\\\\\x7F\\x00-\\x1F]", CharUnescaped())
  {
    var controls := "\\x00" + ("-" + "\\x1F");
    ControlsRead();
    DeleteReads();
    MoreParts("\\x7F", Single(127), controls + "", [Span(0, 31)] + []);
    MoreParts("\\\\", Single(92), "\\x7F" + (controls + ""), [Single(127)] + ([Span(0, 31)] + []));
    MoreParts("\"", Single(34), "\\\\" + ("\\x7F" + (controls + "")), [Single(92)] + ([Single(127)] + ([Span(0, 31)] + [])));
    UnescapedText();
    ClassReads(true, "\"\\\\\\x7F\\x00-\\x1F", CharUnescaped().parts);
  }

  lemma UnescapedText()
    ensures "\"" + ("\\\\" + ("\\x7F" + ("\\x00" + ("-" + "\\x1F") + ""))) == "\"\\\\\\x7F\\x00-\\x1F"
    ensures [Single(34)] + ([Single(92)] + ([Single(127)] + ([Span(0, 31)] + []))) == CharUnescaped().parts
    ensures "[^" + "\"\\\\\\x7F\\x00-\\x1F" + "]" == "[^\"\\\\\\x7F\\x00-\\x1F]"
  {
  }

  function Plainly(s: string): (parts: seq<Part>)
    ensures |parts| == |s|
  {
    if s == "" then [] else [Single(s[0] as int)] + Plainly(s[1..])
  }

  /** Characters written as they are. */
  lemma {:induction false} PlainPartsRead(s: string)
    requires forall i :: 0 <= i < |s| ==> '\0' < s[i] < 128 as char && s[i] !in "\\]-^"
    ensures ReadsAsParts(s, Plainly(s))
    decreases |s|
  {
    if s == "" {
      NoParts();
    } else {
      PlainPartsRead(s[1..]);
      PlainReads(s[0]);
      MoreParts([s[0]], Single(s[0] as int), s[1..], Plainly(s[1..]));
      assert [s[0]] + s[1..] == s;
    }
  }

  lemma ShortParts()
    ensures Plainly("bfnrt") == [Single(98), Single(102), Single(110), Single(114), Single(116)]
  {
    assert "bfnrt"[1..] == "fnrt" && "fnrt"[1..] == "nrt" && "nrt"[1..] == "rt" && "rt"[1..] == "t" && "t"[1..] == "";
    assert Plainly("t") == [Single(116)];
    assert Plainly("rt") == [Single(114)] + [Single(116)];
    assert Plainly("nrt") == [Single(110)] + Plainly("rt");
    assert Plainly("fnrt") == [Single(102)] + Plainly("nrt");
  }

  lemma ShortText()
    ensures "[" + (['"'] + (['\\', '\\'] + "bfnrt")) + "]" == "[\"\\\\bfnrt]"
    ensures [Single(34)] + ([Single(92)] + [Single(98), Single(102), Single(110), Single(114), Single(116)]) == Short()
  {
  }

  lemma ShortPartsRead()
    ensures ReadsAsParts(['"'] + (['\\', '\\'] + "bfnrt"), [Single(34)] + ([Single(92)] + Plainly("bfnrt")))
  {
    PlainPartsRead("bfnrt");
    EscapeSpells('\\', 92);
    SingleReads(['\\', '\\'], 92);
    MoreParts(['\\', '\\'], Single(92), "bfnrt", Plainly("bfnrt"));
    PlainReads('"');
    MoreParts(['"'], Single(34), ['\\', '\\'] + "bfnrt", [Single(92)] + Plainly("bfnrt"));
  }

  lemma ShortReads()
    ensures ReadsAsItem("[\"\\\\bfnrt]", CharClass(false, Short()))
  {
    ShortPartsRead();
    ShortParts();
    ShortText();
    ClassReads(false, ['"'] + (['\\', '\\'] + "bfnrt"), Short());
  }

  lemma PlainSpan(lo: char, hi: char)
    requires '\0' < lo < 128 as char && '\0' < hi < 128 as char && lo !in "\\]-^" && hi !in "\\]"
    ensures ReadsAsPart([lo] + ("-" + [hi]), Span(lo as int, hi as int))
  {
    PlainSpells(lo);
    PlainSpells(hi);
    SpanReads([lo], lo as int, [hi], hi as int);
  }

  lemma HexParts()
    ensures ReadsAsParts(['0'] + ("-" + ['9']) + (['a'] + ("-" + ['f']) + (['A'] + ("-" + ['F']) + "")),
                         [Span(48, 57)] + ([Span(97, 102)] + ([Span(65, 70)] + [])))
  {
    NoParts();
    PlainSpan('0', '9');
    PlainSpan('a', 'f');
    PlainSpan('A', 'F');
    MoreParts(['A'] + ("-" + ['F']), Span(65, 70), "", []);
    MoreParts(['a'] + ("-" + ['f']), Span(97, 102), ['A'] + ("-" + ['F']) + "", [Span(65, 70)] + []);
    MoreParts(['0'] + ("-" + ['9']), Span(48, 57), ['a'] + ("-" + ['f']) + (['A'] + ("-" + ['F']) + ""), [Span(97, 102)] + ([Span(65, 70)] + []));
  }

  lemma HexText()
    ensures "[" + (['0'] + ("-" + ['9']) + (['a'] + ("-" + ['f']) + (['A'] + ("-" + ['F']) + ""))) + "]" == "[0-9a-fA-F]"
    ensures "[0-9a-fA-F]" + "{4}" == "[0-9a-fA-F]{4}"
    ensures [Span(48, 57)] + ([Span(97, 102)] + ([Span(65, 70)] + [])) == Hex()
  {
  }

  lemma HexReads()
    ensures ReadsAsItem("[0-9a-fA-F]{4}", Repeat(CharClass(false, Hex()), Exactly(4)))
  {
    HexParts();
    HexText();
    ClassReads(false, ['0'] + ("-" + ['9']) + (['a'] + ("-" + ['f']) + (['A'] + ("-" + ['F']) + "")), Hex());
    Twenty();
    Repeated("[0-9a-fA-F]", Hex(), Exactly(4));
  }

  lemma CodeLiteral()
    ensures ReadsAsItem("\"u\"", Literal([117]))
  {
    TokenReads(117);
    assert "\"" + [117 as char] + "\"" == "\"u\"";
  }

  lemma BackslashReads()
    ensures ReadsAsItem("[" + (['\\', '\\'] + "") + "]", OneChar(92))
  {
    NoParts();
    EscapeSpells('\\', 92);
    SingleReads(['\\', '\\'], 92);
    MoreParts(['\\', '\\'], Single(92), "", []);
    assert [Single(92)] + [] == [Single(92)];
    ClassReads(false, ['\\', '\\'] + "", [Single(92)]);
  }

  /** The rule put together from its pieces. */
  lemma CharPieces(unescaped: string, backslash: string, short: string, u: string, digits: string)
    requires ReadsAsItem(unescaped, CharUnescaped()) && ReadsAsItem(backslash, OneChar(92))
    requires ReadsAsItem(short, CharClass(false, Short())) && ReadsAsItem(u, Literal([117]))
    requires ReadsAsItem(digits, Repeat(CharClass(false, Hex()), Exactly(4)))
    ensures ReadsAsAlternatives(unescaped + " | " + (backslash + " " + ("(" + "" + (short + " | " + (u + " " + digits)) + "" + ")")), CharBody())
  {
    var four := Repeat(CharClass(false, Hex()), Exactly(4));
    var inside := Or(Only(Snoc(Empty, CharClass(false, Short()))), Snoc(Snoc(Empty, Literal([117])), four));
    OneItemReads(short, CharClass(false, Short()));
    OneSequenceReads(short, Snoc(Empty, CharClass(false, Short())));
    OneItemReads(u, Literal([117]));
    BlankBeforeItem(u, digits, Snoc(Empty, Literal([117])), four);
    BarBetween(short, u + " " + digits, Only(Snoc(Empty, CharClass(false, Short()))), Snoc(Snoc(Empty, Literal([117])), four));
    GroupReads(short + " | " + (u + " " + digits), inside, "", "");
    OneItemReads(backslash, OneChar(92));
    BlankBeforeItem(backslash, "(" + "" + (short + " | " + (u + " " + digits)) + "" + ")", Snoc(Empty, OneChar(92)), Group(inside));
    OneItemReads(unescaped, CharUnescaped());
    OneSequenceReads(unescaped, Snoc(Empty, CharUnescaped()));
    BarBetween(unescaped, backslash + " " + ("(" + "" + (short + " | " + (u + " " + digits)) + "" + ")"),
               Only(Snoc(Empty, CharUnescaped())), CharEscaped());
  }

  lemma GroupText(short: string, u: string, digits: string)
    requires short == "[\"\\\\bfnrt]" && u == "\"u\"" && digits == "[0-9a-fA-F]{4}"
    ensures "(" + "" + (short + " | " + (u + " " + digits)) + "" + ")" == "([\"\\\\bfnrt] | \"u\" [0-9a-fA-F]{4})"
  {
    var spelled := "\"u\" [0-9a-fA-F]{4}";
    assert u + " " + digits == spelled;
    Bracketed(spelled);
  }

  lemma Bracketed(spelled: string)
    requires spelled == "\"u\" [0-9a-fA-F]{4}"
    ensures "(" + "" + ("[\"\\\\bfnrt]" + " | " + spelled) + "" + ")" == "([\"\\\\bfnrt] | \"u\" [0-9a-fA-F]{4})"
  {
  }

  lemma CharText(unescaped: string, backslash: string, group: string)
    requires unescaped == "[^\"\\\\\\x7F\\x00-\\x1F]" && backslash == "[" + (['\\', '\\'] + "") + "]"
    requires group == "([\"\\\\bfnrt] | \"u\" [0-9a-fA-F]{4})"
    ensures unescaped + " | " + (backslash + " " + group) == CHAR_TEXT
  {
    assert backslash == "[\\\\]";
  }

  /** The text of the rule for characters is read as its body. */
  lemma CharReads()
    ensures ReadsAs(CHAR_TEXT, CharBody())
  {
    var unescaped, backslash := "[^\"\\\\\\x7F\\x00-\\x1F]", "[" + (['\\', '\\'] + "") + "]";
    var short, u, digits := "[\"\\\\bfnrt]", "\"u\"", "[0-9a-fA-F]{4}";
    UnescapedReads();
    BackslashReads();
    ShortReads();
    CodeLiteral();
    HexReads();
    GroupText(short, u, digits);
    CharText(unescaped, backslash, "(" + "" + (short + " | " + (u + " " + digits)) + "" + ")");
    CharPieces(unescaped, backslash, short, u, digits);
    AlternativesAreBody(CHAR_TEXT, CharBody());
  }
}
