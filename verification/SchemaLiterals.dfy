/** Literals as the converter writes them, for the keys of properties and for constants. */
module SchemaLiterals {
  import opened Wrappers
  import opened GbnfSyntax
  import opened GbnfLexer
  import opened GbnfReader
  import opened GbnfPrinter

  // ----- the text

  predicate Escapes(c: char) {
    c == '\r' || c == '\n' || c == '"'
  }

  /** What is written behind the backslash. */
  function Letter(c: char): char {
    if c == '\r' then 'r' else if c == '\n' then 'n' else c
  }

  /** Only line ends and quotes are escaped. */
  function Escaped(s: string): string {
    if s == "" then "" else (if Escapes(s[0]) then ['\\', Letter(s[0])] else [s[0]]) + Escaped(s[1..])
  }

  function FormatLiteral(s: string): string {
    "\"" + Escaped(s) + "\""
  }

  predicate Ascii(s: string) {
    forall i :: 0 <= i < |s| ==> '\0' < s[i] < 128 as char
  }

  /** What is left of the text when `s` is still to be read. */
  function Left(s: string, rest: string): string {
    Escaped(s) + ("\"" + rest)
  }

  // ----- one character

  lemma LeftEnd(rest: string)
    ensures Left("", rest) == "\"" + rest && (("\"" + rest)[1..]) == rest
  {
  }

  lemma LeftPlain(s: string, rest: string)
    requires s != "" && !Escapes(s[0])
    ensures Left(s, rest) == [s[0]] + Left(s[1..], rest)
  {
    Assoc([s[0]], Escaped(s[1..]), "\"" + rest);
  }

  lemma LeftEscaped(s: string, rest: string)
    requires s != "" && Escapes(s[0])
    ensures Left(s, rest) == ['\\'] + ([Letter(s[0])] + Left(s[1..], rest))
  {
    var escape := ['\\', Letter(s[0])];
    Assoc(escape, Escaped(s[1..]), "\"" + rest);
    TwoThen('\\', Letter(s[0]), Left(s[1..], rest));
  }

  lemma TwoThen(a: char, b: char, rest: string)
    ensures [a, b] + rest == [a] + ([b] + rest)
  {
  }

  lemma PlainCharacter(c: char, after: string)
    requires '\0' < c < 128 as char && c != '\\'
    ensures Character([c] + after) == Some((c as int, after))
  {
    var s := [c] + after;
    assert s[1..] == after && s[0] as int % 256 == s[0] as int && s[0] as int / 16 < 8;
  }

  lemma EscapedCharacter(c: char, after: string)
    ensures Character(['\\'] + ([c] + after)) ==
      if c == 'r' then Some((13, after)) else if c == 'n' then Some((10, after)) else if c == '"' then Some((34, after))
      else if c == '\\' then Some((92, after))
      else if c == 't' then Some((9, after)) else if c == '[' then Some((91, after)) else if c == ']' then Some((93, after))
      else if c == 'x' then HexDigits(after, 2, 0) else if c == 'u' then HexDigits(after, 4, 0)
      else if c == 'U' then HexDigits(after, 8, 0) else None
  {
    var s := ['\\'] + ([c] + after);
    assert s[1] == c && s[2..] == after;
  }

  /** One character of the literal read. */
  lemma Step(text: string, c: nat, after: string, acc: Word)
    requires Character(text) == Some((c, after)) && At(text, 0) != '"'
    ensures LiteralChars(text, acc) == LiteralChars(after, acc + [c])
  {
  }

  /** Away from a backslash, the next character is the next one of the string. */
  lemma ReadNext(s: string, rest: string, acc: Word)
    requires s != "" && Ascii(s) && s[0] != '\\'
    ensures LiteralChars(Left(s, rest), acc) == LiteralChars(Left(s[1..], rest), acc + [s[0] as int])
  {
    var after := Left(s[1..], rest);
    if Escapes(s[0]) {
      LeftEscaped(s, rest);
      EscapedCharacter(Letter(s[0]), after);
    } else {
      LeftPlain(s, rest);
      PlainCharacter(s[0], after);
    }
    Step(Left(s, rest), s[0] as int, after, acc);
  }

  lemma {:induction false} HexStaysAligned(s: string, rest: string, size: nat, value: nat)
    requires HexDigits(Left(s, rest), size, value).Some?
    ensures size <= |s| && HexDigits(Left(s, rest), size, value).value.1 == Left(s[size..], rest)
    decreases size
  {
    if size > 0 {
      if s == "" {
        LeftEnd(rest);
        assert false;
      } else {
        HexDigitPlain(s, rest);
        HexStaysAligned(s[1..], rest, size - 1, value * 16 + HexValue(s[0]));
        assert s[1..][size - 1..] == s[size..];
      }
    } else {
      assert s[0..] == s;
    }
  }

  lemma HexDigitPlain(s: string, rest: string)
    requires s != "" && IsHex(At(Left(s, rest), 0))
    ensures Left(s, rest)[0] == s[0] && Left(s, rest)[1..] == Left(s[1..], rest)
  {
    if Escapes(s[0]) {
      LeftEscaped(s, rest);
      assert false;
    } else {
      LeftPlain(s, rest);
    }
  }

  // ----- at a backslash

  /** Before a character that is not escaped, a backslash takes at least that one with it. */
  lemma BackslashTakes(s: string, rest: string) returns (k: nat)
    requires |s| > 1 && s[0] == '\\' && !Escapes(s[1]) && Character(Left(s, rest)).Some?
    ensures 2 <= k <= |s| && Character(Left(s, rest)).value.1 == Left(s[k..], rest)
  {
    var after := Left(s[2..], rest);
    LeftPlain(s, rest);
    LeftPlain(s[1..], rest);
    assert s[1..][1..] == s[2..];
    EscapedCharacter(s[1], after);
    var size := if s[1] == 'x' then 2 else if s[1] == 'u' then 4 else if s[1] == 'U' then 8 else 0;
    k := 2 + size;
    if size > 0 {
      HexStaysAligned(s[2..], rest, size, 0);
      assert s[2..][size..] == s[k..];
    }
  }

  /** Before an escaped character, it takes the backslash of the escape, so the letter stands alone. */
  lemma BackslashSplits(s: string, rest: string, acc: Word)
    requires |s| > 1 && s[0] == '\\' && Escapes(s[1])
    ensures LiteralChars(Left(s, rest), acc) == LiteralChars([Letter(s[1])] + Left(s[2..], rest), acc + [92])
  {
    var after := [Letter(s[1])] + Left(s[2..], rest);
    LeftPlain(s, rest);
    LeftEscaped(s[1..], rest);
    assert s[1..][1..] == s[2..];
    EscapedCharacter('\\', after);
    Step(Left(s, rest), 92, after, acc);
  }

  /** At the end, it takes the closing quote. */
  lemma BackslashAtEnd(rest: string, acc: Word)
    ensures LiteralChars(Left("\\", rest), acc) == LiteralChars(rest, acc + [34])
  {
    LeftPlain("\\", rest);
    LeftEnd(rest);
    assert "\\"[1..] == "";
    EscapedCharacter('"', rest);
    assert "\"" + rest == ['"'] + rest;
    Step(Left("\\", rest), 34, rest, acc);
  }

  lemma QuoteEnds(after: string, acc: Word)
    ensures LiteralChars(['"'] + after, acc) == Some((acc, after))
  {
    assert (['"'] + after)[1..] == after;
  }

  // ----- what is read

  lemma {:induction false} LiteralExtends(text: string, acc: Word)
    requires LiteralChars(text, acc).Some?
    ensures acc <= LiteralChars(text, acc).value.0
    decreases |text|
  {
    if At(text, 0) != '"' {
      var (c, after) := Character(text).value;
      LiteralExtends(after, acc + [c]);
    }
  }

  /** As many characters as the string has at most, unless the closing quote was read over. */
  ghost predicate AtMost(text: string, acc: Word, n: nat, rest: string) {
    var r := LiteralChars(text, acc);
    r.Some? && |r.value.1| >= |rest| ==> |r.value.0| <= |acc| + n
  }

  lemma {:induction false} NoMoreThanWritten(s: string, rest: string, acc: Word)
    requires Ascii(s)
    ensures AtMost(Left(s, rest), acc, |s|, rest)
    decreases |s|
  {
    if s == "" {
      LeftEnd(rest);
    } else if s[0] != '\\' {
      ReadNext(s, rest, acc);
      NoMoreThanWritten(s[1..], rest, acc + [s[0] as int]);
    } else if |s| == 1 {
      assert s == "\\";
      BackslashAtEnd(rest, acc);
    } else {
      BackslashNoMore(s, rest, acc);
    }
  }

  lemma {:induction false} BackslashNoMore(s: string, rest: string, acc: Word)
    requires Ascii(s) && |s| > 1 && s[0] == '\\'
    ensures AtMost(Left(s, rest), acc, |s|, rest)
    ensures !Escapes(s[1]) ==> AtMost(Left(s, rest), acc, |s| - 1, rest)
    decreases |s|, 0
  {
    if !Escapes(s[1]) {
      if Character(Left(s, rest)).Some? {
        var k := BackslashTakes(s, rest);
        var c := Character(Left(s, rest)).value.0;
        LeftPlain(s, rest);
        Step(Left(s, rest), c, Left(s[k..], rest), acc);
        NoMoreThanWritten(s[k..], rest, acc + [c]);
      } else {
        LeftPlain(s, rest);
      }
    } else {
      BackslashSplits(s, rest, acc);
      var after := Left(s[2..], rest);
      if s[1] == '"' {
        QuoteEnds(after, acc + [92]);
      } else {
        PlainCharacter(Letter(s[1]), after);
        Step([Letter(s[1])] + after, Letter(s[1]) as int, after, acc + [92]);
        NoMoreThanWritten(s[2..], rest, acc + [92] + [Letter(s[1]) as int]);
      }
    }
  }

  ghost predicate ReadsAsMeant(s: string, rest: string, acc: Word) {
    LiteralChars(Left(s, rest), acc) == Some((acc + Codes(s), rest))
  }

  lemma CodesCons(s: string, acc: Word)
    requires s != ""
    ensures acc + [s[0] as int] + Codes(s[1..]) == acc + Codes(s)
  {
    assert Codes(s) == [s[0] as int] + Codes(s[1..]);
  }

  lemma MeantNext(s: string, rest: string, acc: Word)
    requires s != "" && Ascii(s) && s[0] != '\\'
    ensures ReadsAsMeant(s, rest, acc) <==> ReadsAsMeant(s[1..], rest, acc + [s[0] as int])
  {
    ReadNext(s, rest, acc);
    CodesCons(s, acc);
  }

  lemma InRest(s: string)
    requires s != "" && s[0] != '\\'
    ensures '\\' in s <==> '\\' in s[1..]
  {
    assert s == [s[0]] + s[1..];
  }

  /** A backslash at the front: the literal ends elsewhere, has fewer characters, or has the letter of an escape in it. */
  lemma BackslashMisread(s: string, rest: string, acc: Word)
    requires Ascii(s) && s != "" && s[0] == '\\'
    ensures !ReadsAsMeant(s, rest, acc)
  {
    if |s| == 1 {
      assert s == "\\";
      BackslashAtEnd(rest, acc);
    } else if !Escapes(s[1]) {
      BackslashNoMore(s, rest, acc);
    } else {
      BackslashSplits(s, rest, acc);
      var after := Left(s[2..], rest);
      if s[1] == '"' {
        QuoteEnds(after, acc + [92]);
      } else {
        LetterMisread(s, rest, acc);
      }
    }
  }

  lemma LetterMisread(s: string, rest: string, acc: Word)
    requires |s| > 1 && (s[1] == '\r' || s[1] == '\n')
    requires LiteralChars(Left(s, rest), acc) == LiteralChars([Letter(s[1])] + Left(s[2..], rest), acc + [92])
    ensures !ReadsAsMeant(s, rest, acc)
  {
    var after, letter := Left(s[2..], rest), Letter(s[1]);
    var more := acc + [92] + [letter as int];
    PlainCharacter(letter, after);
    Step([letter] + after, letter as int, after, acc + [92]);
    if LiteralChars(after, more).Some? {
      LiteralExtends(after, more);
      assert LiteralChars(after, more).value.0[|acc| + 1] == letter as int;
      assert (acc + Codes(s))[|acc| + 1] == Codes(s)[1] == s[1] as int;
    }
  }

  /** The literal is read as the string it was written for exactly if that has no backslash. */
  lemma {:induction false} LiteralReadsIffNoBackslash(s: string, rest: string, acc: Word)
    requires Ascii(s)
    ensures ReadsAsMeant(s, rest, acc) <==> '\\' !in s
    decreases |s|
  {
    if s == "" {
      LeftEnd(rest);
      assert acc + [] == acc;
    } else if s[0] == '\\' {
      BackslashMisread(s, rest, acc);
    } else {
      MeantNext(s, rest, acc);
      LiteralReadsIffNoBackslash(s[1..], rest, acc + [s[0] as int]);
      InRest(s);
    }
  }

  /** Without a backslash, the literal is the item meant. */
  lemma LiteralIsItem(s: string, rest: string, nested: bool)
    requires Ascii(s) && '\\' !in s
    ensures var text := FormatLiteral(s) + rest;
      At(text, 0) == '"' && Atom(text, nested) == Some((Literal(Codes(s)), SkipSpace(rest, nested)))
  {
    var after := Left(s, rest);
    LiteralReadsIffNoBackslash(s, rest, []);
    assert [] + Codes(s) == Codes(s);
    Assoc("\"" + Escaped(s), "\"", rest);
    Assoc("\"", Escaped(s), "\"" + rest);
    FirstAndRest('"', after);
    AtomLiteral("\"" + after, after, Codes(s), rest, nested);
  }

  // ----- the keys, as they are dumped

  function LowerHex(d: nat): char
    requires d < 16
  {
    if d < 10 then '0' + d as char else 'a' + (d - 10) as char
  }

  function DumpedChar(c: char): string {
    match c as int
    case 8 => "\\b"
    case 9 => "\\t"
    case 10 => "\\n"
    case 12 => "\\f"
    case 13 => "\\r"
    case 34 => "\\\""
    case 92 => "\\\\"
    case n => if n < 32 then "\\u00" + [LowerHex(n / 16), LowerHex(n % 16)] else [c]
  }

  function DumpedChars(s: string): string {
    if s == "" then "" else DumpedChar(s[0]) + DumpedChars(s[1..])
  }

  /** A name as JSON text. */
  function Dumped(name: string): string {
    "\"" + DumpedChars(name) + "\""
  }

  predicate PlainName(name: string) {
    forall i :: 0 <= i < |name| ==> name[i] >= ' ' && name[i] != '"' && name[i] != '\\'
  }

  lemma CharDumps(c: char)
    requires c < 128 as char
    ensures Ascii(DumpedChar(c)) && ('\\' !in DumpedChar(c) <==> c >= ' ' && c != '"' && c != '\\')
  {
    var s := DumpedChar(c);
    assert c < ' ' || c == '"' || c == '\\' ==> s[0] == '\\';
  }

  lemma {:induction false} NameDumps(s: string)
    requires forall i :: 0 <= i < |s| ==> s[i] < 128 as char
    ensures Ascii(DumpedChars(s)) && ('\\' !in DumpedChars(s) <==> PlainName(s))
    decreases |s|
  {
    if s != "" {
      CharDumps(s[0]);
      NameDumps(s[1..]);
      assert forall i :: 0 <= i < |s| ==> s[i] == if i == 0 then s[0] else s[1..][i - 1];
      assert PlainName(s) <==> (s[0] >= ' ' && s[0] != '"' && s[0] != '\\') && PlainName(s[1..]) by {
        assert forall i :: 0 <= i < |s[1..]| ==> s[1..][i] == s[i + 1];
      }
    }
  }

  lemma DumpIsAscii(name: string)
    requires forall i :: 0 <= i < |name| ==> name[i] < 128 as char
    ensures Ascii(Dumped(name)) && ('\\' !in Dumped(name) <==> PlainName(name))
  {
    NameDumps(name);
    var s := DumpedChars(name);
    assert forall c :: c in Dumped(name) <==> c == '"' || c in s;
  }

  /** The key of a property is read as it was dumped exactly if the name has no quote, no backslash and no control character. */
  lemma KeyReadsIffPlainName(name: string, rest: string)
    requires forall i :: 0 <= i < |name| ==> name[i] < 128 as char
    ensures ReadsAsMeant(Dumped(name), rest, []) <==> PlainName(name)
  {
    DumpIsAscii(name);
    LiteralReadsIffNoBackslash(Dumped(name), rest, []);
  }

  /** The name of one quote: its literal ends behind the backslash of the dump. */
  lemma QuotedNameMisread(rest: string)
    ensures LiteralChars(Left(Dumped("\""), rest), []) == Some(([34, 92], Left("\"", rest)))
  {
    var dump := Dumped("\"");
    var none: Word := [];
    assert "\""[1..] == "" && dump == "\"\\\"\"";
    assert dump[1..] == "\\\"\"" && dump[1..][2..] == "\"";
    ReadNext(dump, rest, none);
    assert none + [34] == [34];
    BackslashSplits(dump[1..], rest, [34]);
    QuoteEnds(Left("\"", rest), [34] + [92]);
    assert [34] + [92] == [34, 92];
  }
}
