/** The abstract grammar that a GBNF text denotes, or None when the text is malformed. */
module GbnfReader {
  import opened Wrappers
  import opened GbnfSyntax
  import opened GbnfLexer

  function LiteralChars(s: string, acc: Word): (r: Option<(Word, string)>)
    ensures r.Some? ==> |r.value.1| < |s|
    decreases |s|
  {
    if At(s, 0) == '"' then Some((acc, s[1..]))
    else
      var (c, rest) :- Character(s);
      LiteralChars(rest, acc + [c])
  }

  /** One entry of a bracketed class: a character, or a range unless the `-` is the last character. */
  function ClassPart(s: string): (r: Option<(Part, string)>)
    ensures r.Some? ==> |r.value.1| < |s|
  {
    var (lo, rest) :- Character(s);
    if At(rest, 0) == '-' && At(rest, 1) != ']' then
      var (hi, after) :- Character(rest[1..]);
      Some((Span(lo, hi), after))
    else Some((Single(lo), rest))
  }

  function ClassParts(s: string, acc: seq<Part>): (r: Option<(seq<Part>, string)>)
    ensures r.Some? ==> |r.value.1| < |s|
    decreases |s|
  {
    if At(s, 0) == ']' then Some((acc, s[1..]))
    else
      var (part, rest) :- ClassPart(s);
      ClassParts(rest, acc + [part])
  }

  /** The braces of `{m}`, `{m,}` and `{m,n}`. */
  function Braces(s: string, nested: bool): (r: Option<(Repetition, string)>)
    ensures r.Some? ==> |r.value.1| < |s|
  {
    if At(s, 0) != '{' then None else
    var (m, s1) :- Bound(SkipSpace(s[1..], nested));
    var s2 := SkipSpace(s1, nested);
    if At(s2, 0) == '}' then Some((Exactly(m), SkipSpace(s2[1..], nested)))
    else if At(s2, 0) != ',' then None
    else
      var s3 := SkipSpace(s2[1..], nested);
      var (op, s4) :-
        if IsDigitAt(s3) then
          var (n, s5) :- Bound(s3);
          Some((Between(m, n), SkipSpace(s5, nested)))
        else Some((AtLeast(m), s3));
      if At(s4, 0) == '}' then Some((op, SkipSpace(s4[1..], nested))) else None
  }

  predicate IsDigitAt(s: string) {
    '0' <= At(s, 0) <= '9'
  }

  predicate StartsOperator(c: char) {
    c == '*' || c == '+' || c == '?' || c == '{'
  }

  function Operator(s: string, nested: bool): (r: Option<(Repetition, string)>)
    ensures r.Some? ==> |r.value.1| < |s|
  {
    match At(s, 0)
    case '*' => Some((Star, SkipSpace(s[1..], nested)))
    case '+' => Some((Plus, SkipSpace(s[1..], nested)))
    case '?' => Some((Maybe, SkipSpace(s[1..], nested)))
    case _ => Braces(s, nested)
  }

  /** An item other than a group, with the blanks after it. */
  function Atom(s: string, nested: bool): (r: Option<(Item, string)>)
    ensures r.Some? ==> |r.value.1| < |s| && !r.value.0.Repeat?
  {
    var c := At(s, 0);
    if c == '"' then
      var (chars, rest) :- LiteralChars(s[1..], []);
      Some((Literal(chars), SkipSpace(rest, nested)))
    else if c == '[' then
      var negated := At(s, 1) == '^';
      var (parts, rest) :- ClassParts(if negated then s[2..] else s[1..], []);
      Some((CharClass(negated, parts), SkipSpace(rest, nested)))
    else if IsWordChar(c) then
      var n := PrefixLength(s, IsWordChar);
      Some((Ref(s[..n]), SkipSpace(s[n..], nested)))
    else if c == '.' then Some((AnyChar, SkipSpace(s[1..], nested)))
    else None
  }

  predicate StartsAtom(c: char) {
    c == '"' || c == '[' || IsWordChar(c) || c == '.'
  }

  function ReadGroup(s: string, nested: bool): (r: Option<(Item, string)>)
    requires At(s, 0) == '('
    ensures r.Some? ==> |r.value.1| < |s| && r.value.0.Group?
    decreases |s|, 0
  {
    var (alts, rest) :- ReadAlternatives(SkipSpace(s[1..], true), true);
    if At(rest, 0) == ')' then Some((Group(alts), SkipSpace(rest[1..], nested))) else None
  }

  /** Continue a sequence of which `acc` has been read. */
  function ReadSequence(s: string, nested: bool, acc: Sequence): (r: Option<(Sequence, string)>)
    ensures r.Some? ==> |r.value.1| <= |s|
    decreases |s|, 1
  {
    var c := At(s, 0);
    if StartsAtom(c) then
      var (item, rest) :- Atom(s, nested);
      ReadSequence(rest, nested, Snoc(acc, item))
    else if c == '(' then
      var (group, rest) :- ReadGroup(s, nested);
      ReadSequence(rest, nested, Snoc(acc, group))
    else if StartsOperator(c) then
      var (op, rest) :- Operator(s, nested);
      if acc.Empty? || Silent(acc.last) then None
      else ReadSequence(rest, nested, Snoc(acc.init, Repeat(acc.last, op)))
    else Some((acc, s))
  }

  /** Continue a list of alternatives of which `acc` has been read. */
  function MoreAlternatives(s: string, nested: bool, acc: Alternatives): (r: Option<(Alternatives, string)>)
    ensures r.Some? ==> |r.value.1| <= |s|
    decreases |s|, 2
  {
    if At(s, 0) == '|' then
      var (next, rest) :- ReadSequence(SkipSpace(s[1..], true), nested, Empty);
      MoreAlternatives(rest, nested, Or(acc, next))
    else Some((acc, s))
  }

  function ReadAlternatives(s: string, nested: bool): (r: Option<(Alternatives, string)>)
    ensures r.Some? ==> |r.value.1| <= |s|
    decreases |s|, 3
  {
    var (first, rest) :- ReadSequence(s, nested, Empty);
    MoreAlternatives(rest, nested, Only(first))
  }

  /** The text after the end of a rule's line. */
  function EndOfRule(s: string): (r: Option<string>)
    ensures r.Some? ==> |r.value| <= |s|
  {
    var c := At(s, 0);
    if c == '\r' then Some(SkipSpace(if At(s, 1) == '\n' then s[2..] else s[1..], true))
    else if c == '\n' then Some(SkipSpace(s[1..], true))
    else if c == '\0' then Some(SkipSpace(s, true))
    else None
  }

  function ReadRule(s: string): (r: Option<(Rule, string)>)
    ensures r.Some? ==> |r.value.1| < |s|
  {
    var n := PrefixLength(s, IsWordChar);
    if n == 0 then None else
    var sign := SkipSpace(s[n..], false);
    if !(At(sign, 0) == ':' && At(sign, 1) == ':' && At(sign, 2) == '=') then None else
    var (body, rest) :- ReadAlternatives(SkipSpace(sign[3..], true), false);
    var after :- EndOfRule(rest);
    Some((Rule(s[..n], body), after))
  }

  function ReadRules(s: string, acc: Grammar): (r: Option<Grammar>)
    decreases |s|
  {
    if At(s, 0) == '\0' then Some(acc)
    else
      var (rule, rest) :- ReadRule(s);
      ReadRules(rest, acc + [rule])
  }

  function Read(text: string): (r: Option<Grammar>) {
    ReadRules(SkipSpace(text, true), [])
  }
}
