/** Abstract syntax of GBNF grammars, and the element streams the parser compiles them to. */
module GbnfSyntax {
  import opened Wrappers

  /** A word is a sequence of Unicode code points. */
  type Word = seq<nat>

  datatype Part = Single(c: nat) | Span(lo: nat, hi: nat)

  /** A postfix operator. The numbers are what the C++ `int` variables hold. */
  datatype Repetition = Star | Plus | Maybe | Exactly(m: int) | AtLeast(m: int) | Between(m: int, n: int) {

    function Min(): int {
      match this
      case Star => 0
      case Plus => 1
      case Maybe => 0
      case Exactly(m) => m
      case AtLeast(m) => m
      case Between(m, _) => m
    }

    /** Negative means "no upper bound". */
    function Max(): int {
      match this
      case Star => -1
      case Plus => -1
      case Maybe => 1
      case Exactly(m) => m
      case AtLeast(_) => -1
      case Between(_, n) => n
    }
  }

  datatype Item =
    | Literal(chars: Word)
    | CharClass(negated: bool, parts: seq<Part>)
    | Ref(name: string)
    | Group(alts: Alternatives)
    | AnyChar
    | Repeat(body: Item, op: Repetition)

  /** Left-nested, because a postfix operator applies to the item read last. */
  datatype Sequence = Empty | Snoc(init: Sequence, last: Item)

  datatype Alternatives = Only(only: Sequence) | Or(init: Alternatives, last: Sequence)

  datatype Rule = Rule(name: string, body: Alternatives)

  type Grammar = seq<Rule>

  /** Bodies by name. */
  type Rules = map<string, Alternatives>

  /** The code points of an ASCII text. */
  function Codes(s: string): (w: Word)
    ensures |w| == |s|
  {
    seq(|s|, i requires 0 <= i < |s| => s[i] as int)
  }

  /** One sequence behind another. */
  function Append(a: Sequence, b: Sequence): Sequence {
    match b
    case Empty => a
    case Snoc(init, last) => Snoc(Append(a, init), last)
  }

  /** A later definition of a name replaces an earlier one. */
  function Bodies(g: Grammar): Rules {
    if g == [] then map[] else Bodies(g[..|g| - 1])[g[|g| - 1].name := g[|g| - 1].body]
  }

  /** One element of a compiled rule (`llama_grammar_element`). */
  datatype Element =
    | End
    | Alt
    | RuleRef(id: nat)
    | Char(c: nat)
    | CharNot(c: nat)
    | CharRngUpper(c: nat)
    | CharAlt(c: nat)
    | CharAny

  type Elements = seq<Element>

  /** How many mandatory copies the rewrite of a postfix operator lays down. */
  function Fewest(op: Repetition): nat {
    if op.Min() == 0 then 0 else if op.Min() < 1 then 1 else op.Min()
  }

  /** How many optional copies may follow the mandatory ones; None for "any number". */
  function Extra(op: Repetition): Option<nat> {
    if op.Max() < 0 then None
    else if op.Max() < op.Min() then Some(0)
    else Some(op.Max() - op.Min())
  }

  predicate CountAllowed(op: Repetition, k: nat) {
    Fewest(op) <= k && (Extra(op).Some? ==> k <= Fewest(op) + Extra(op).value)
  }

  /** Items that compile to no element at all; a postfix operator after one of them is an error. */
  predicate Silent(item: Item) {
    match item
    case Literal(chars) => chars == []
    case CharClass(_, parts) => parts == []
    case Repeat(_, op) => Fewest(op) == 0 && Extra(op) == Some(0)
    case _ => false
  }
}
