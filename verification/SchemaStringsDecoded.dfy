/** Excluded keys as JSON reads them: an escaped spelling leaves the trie, whatever it stands for. */
module SchemaStringsDecoded {
  import opened Wrappers
  import Bytes
  import opened GbnfSyntax
  import opened GbnfMeaning
  import opened GbnfLanguages
  import opened SchemaStrings

  const BACKSLASH: nat := 92

  /** Code points below the surrogates, which one `\u` escape can name. */
  const SURROGATES: nat := 0xD800

  // ----- strings as JSON reads them (section 7 of RFC 8259)

  function HexOf(c: nat): Option<nat> {
    if c < 256 then Bytes.HexDigit(c) else None
  }

  /** The code unit of `\uXXXX`. */
  function Unit(w: Word): Option<nat> {
    if |w| < 6 || w[0] != BACKSLASH || w[1] != 117 then None
    else
      var a :- HexOf(w[2]);
      var b :- HexOf(w[3]);
      var c :- HexOf(w[4]);
      var d :- HexOf(w[5]);
      Some(4096 * a + 256 * b + 16 * c + d)
  }

  /** What a two-character escape stands for. */
  function Short(c: nat): Option<nat> {
    if c == QUOTE || c == BACKSLASH || c == 47 then Some(c)
    else if c == 98 then Some(8)
    else if c == 102 then Some(12)
    else if c == 110 then Some(10)
    else if c == 114 then Some(13)
    else if c == 116 then Some(9)
    else None
  }

  /** The string that a spelling stands for; None if it is no spelling. */
  function Decoded(w: Word): Option<Word>
    decreases |w|
  {
    if w == [] then Some([])
    else if w[0] != BACKSLASH then
      if w[0] < 32 || w[0] == QUOTE then None
      else
        var rest :- Decoded(w[1..]);
        Some([w[0]] + rest)
    else if Unit(w).Some? then
      var rest :- Decoded(w[6..]);
      Some([Unit(w).value] + rest)
    else if |w| >= 2 && Short(w[1]).Some? then
      var rest :- Decoded(w[2..]);
      Some([Short(w[1]).value] + rest)
    else None
  }

  function HexDigit(d: nat): (c: nat)
    requires d < 16
    ensures HexOf(c) == Some(d) && Unescaped(c)
  {
    if d < 10 then 48 + d else 87 + d
  }

  function UnitText(c: nat): (w: Word)
    requires c < 0x10000
    ensures |w| == 6 && w[0] == BACKSLASH && w[1] == 117
  {
    [BACKSLASH, 117, HexDigit(c / 4096), HexDigit(c / 256 % 16), HexDigit(c / 16 % 16), HexDigit(c % 16)]
  }

  /** The escapes of two characters, spelled out. */
  lemma ShortEscapesDecode()
    ensures Decoded(['\\' as int, '"' as int]) == Some(['"' as int]) && Decoded(['\\' as int, '\\' as int]) == Some(['\\' as int])
    ensures Decoded(['\\' as int, '/' as int]) == Some(['/' as int])
    ensures Decoded(['\\' as int, 'b' as int]) == Some([8]) && Decoded(['\\' as int, 'f' as int]) == Some([12])
    ensures Decoded(['\\' as int, 'n' as int]) == Some([10]) && Decoded(['\\' as int, 'r' as int]) == Some([13])
    ensures Decoded(['\\' as int, 't' as int]) == Some([9])
  {
    forall c: nat, v: nat | Short(c) == Some(v)
      ensures Decoded([BACKSLASH, c]) == Some([v])
    {
      var w: Word := [BACKSLASH, c];
      assert w[2..] == [] && Unit(w).None? && Decoded(w[2..]) == Some([]);
      assert [v] + [] == [v];
    }
    assert Short('n' as int) == Some(10) && Short('r' as int) == Some(13) && Short('t' as int) == Some(9);
    assert Short('b' as int) == Some(8) && Short('f' as int) == Some(12) && Short('/' as int) == Some(47);
    assert Short('"' as int) == Some(34) && Short('\\' as int) == Some(92);
  }

  lemma HexPlaces(c: nat)
    requires c < 0x10000
    ensures c / 4096 < 16 && c == 4096 * (c / 4096) + 256 * (c / 256 % 16) + 16 * (c / 16 % 16) + c % 16
  {
    var q := c / 16;
    assert c / 256 == q / 16;
    assert c / 4096 == q / 16 / 16;
  }

  lemma FourDigits(w: Word, a: nat, b: nat, c: nat, d: nat)
    requires |w| >= 6 && w[0] == BACKSLASH && w[1] == 117
    requires HexOf(w[2]) == Some(a) && HexOf(w[3]) == Some(b) && HexOf(w[4]) == Some(c) && HexOf(w[5]) == Some(d)
    ensures Unit(w) == Some(4096 * a + 256 * b + 16 * c + d)
  {
  }

  lemma UnitReads(c: nat, rest: Word)
    requires c < 0x10000
    ensures Unit(UnitText(c) + rest) == Some(c) && AllUnescaped(UnitText(c)[1..])
  {
    HexPlaces(c);
    FourDigits(UnitText(c) + rest, c / 4096, c / 256 % 16, c / 16 % 16, c % 16);
  }

  lemma {:induction false} UnescapedDecodes(p: Word, rest: Word)
    requires AllUnescaped(p) && Decoded(rest).Some?
    ensures Decoded(p + rest) == Some(p + Decoded(rest).value)
    decreases |p|
  {
    if p == [] {
      assert p + rest == rest && p + Decoded(rest).value == Decoded(rest).value;
    } else {
      assert Unescaped(p[0]) && (p + rest)[1..] == p[1..] + rest;
      UnescapedDecodes(p[1..], rest);
      assert [p[0]] + (p[1..] + Decoded(rest).value) == p + Decoded(rest).value;
    }
  }

  /** A name with its character at `k` escaped. */
  function Spelling(name: Word, k: nat): Word
    requires k < |name| && name[k] < 0x10000
  {
    name[..k] + (UnitText(name[k]) + name[k + 1..])
  }

  lemma EscapeDecodes(c: nat, rest: Word, tail: Word)
    requires c < SURROGATES && Decoded(rest) == Some(tail)
    ensures Decoded(UnitText(c) + rest) == Some([c] + tail)
  {
    var w := UnitText(c) + rest;
    UnitReads(c, rest);
    assert w[6..] == rest && w[0] == BACKSLASH;
  }

  lemma UnescapedIsItself(p: Word)
    requires AllUnescaped(p)
    ensures Decoded(p) == Some(p)
  {
    var none: Word := [];
    UnescapedDecodes(p, none);
    assert p + none == p;
  }

  lemma Around(name: Word, k: nat)
    requires k < |name| && AllUnescaped(name)
    ensures AllUnescaped(name[..k]) && AllUnescaped(name[k + 1..]) && name == name[..k] + ([name[k]] + name[k + 1..])
  {
  }

  lemma SpellingDecodes(name: Word, k: nat)
    requires k < |name| && name[k] < SURROGATES && AllUnescaped(name)
    ensures Decoded(Spelling(name, k)) == Some(name)
  {
    var rest := name[k + 1..];
    Around(name, k);
    UnescapedIsItself(rest);
    EscapeDecodes(name[k], rest, rest);
    UnescapedDecodes(name[..k], UnitText(name[k]) + rest);
  }

  // ----- out of the trie

  lemma {:induction false} FollowConcat(t: Trie, p: Word, q: Word)
    ensures Follow(t, p + q) == if Follow(t, p).Some? then Follow(Follow(t, p).value, q) else None
    decreases |p|
  {
    if p == [] {
      assert p + q == q;
    } else {
      FollowChild(t, p);
      FollowChild(t, p + q);
      assert (p + q)[1..] == p[1..] + q;
      if Lookup(t.children, p[0]).Some? {
        FollowConcat(Lookup(t.children, p[0]).value, p[1..], q);
      }
    }
  }

  /** What a node on the path accepts is accepted behind the path. */
  lemma {:induction false} AcceptsBehind(g: Rules, t: Trie, p: Word, w: Word)
    requires HasPath(t, p) && Follow(t, p).value.children != [] && Accepts(g, Follow(t, p).value, w)
    ensures Accepts(g, t, p + w)
    decreases |p|
  {
    if p == [] {
      assert p + w == w;
    } else {
      FollowChild(t, p);
      var child := Lookup(t.children, p[0]).value;
      if p[1..] != [] {
        FollowChild(child, p[1..]);
      }
      AcceptsBehind(g, child, p[1..], w);
      assert (p + w)[1..] == p[1..] + w;
    }
  }

  /** At a node without a branch for the backslash, an escape is any other character. */
  lemma EscapeAccepted(g: Rules, node: Trie, c: nat, rest: Word)
    requires CharRule(g) && c < 0x10000 && AllUnescaped(rest) && Lookup(node.children, BACKSLASH).None?
    ensures Accepts(g, node, UnitText(c) + rest)
  {
    var w := UnitText(c) + rest;
    UnitReads(c, rest);
    assert w[1..] == UnitText(c)[1..] + rest;
    assert AllUnescaped(w[1..]);
    UnescapedStarPlus(g, w[1..]);
  }

  lemma SpellingAccepted(g: Rules, names: seq<Word>, i: nat, k: nat)
    requires CharRule(g) && i < |names| && k < |names[i]| && names[i][k] < SURROGATES && AllUnescaped(names[i])
    requires !IsPrefixOfOne(names, names[i][..k] + [BACKSLASH])
    ensures Accepts(g, Build(names), Spelling(names[i], k)) && Build(names).children != []
  {
    var t, name := Build(names), names[i];
    var p := name[..k];
    assert p + [name[k]] == name[..k + 1];
    BuildKnows(names, p + [name[k]]);
    assert IsPrefixOfOne(names, p + [name[k]]);
    BuildKnows(names, p + [BACKSLASH]);
    FollowConcat(t, p, [name[k]]);
    FollowConcat(t, p, [BACKSLASH]);
    var node := Follow(t, p).value;
    FollowChild(node, [name[k]]);
    FollowChild(node, [BACKSLASH]);
    assert [BACKSLASH][1..] == [] && [name[k]][1..] == [];
    EscapeAccepted(g, node, name[k], name[k + 1..]);
    AcceptsBehind(g, t, p, UnitText(name[k]) + name[k + 1..]);
    if k > 0 {
      FollowChild(t, p);
    }
  }

  // ----- which excluded names still get through

  ghost predicate GetsThrough(g: Rules, names: seq<Word>, name: Word, t: Word, w: Word) {
    Decoded(w) == Some(name) && [QUOTE] + w + [QUOTE] + t in OfSequence(g, NotStrings(names))
  }

  predicate PlainNames(names: seq<Word>) {
    forall i, n :: 0 <= i < |names| && 0 <= n < |names[i]| ==> Unescaped(names[i][n]) && names[i][n] < SURROGATES
  }

  lemma NoBackslash(names: seq<Word>, p: Word)
    requires PlainNames(names)
    ensures !IsPrefixOfOne(names, p + [BACKSLASH])
  {
    var q := p + [BACKSLASH];
    forall i | 0 <= i < |names|
      ensures !(q <= names[i])
    {
      if |p| < |names[i]| {
        assert q[|p|] == BACKSLASH && Unescaped(names[i][|p|]);
      }
    }
  }

  lemma EmptyDecodes(w: Word)
    requires Decoded(w) == Some([])
    ensures w == []
  {
  }

  /** Of plain names, an excluded one has a spelling that is accepted exactly if it is not empty, or only empty ones are excluded. */
  lemma ExcludedGetsThroughIff(g: Rules, names: seq<Word>, i: nat, t: Word)
    requires CharRule(g) && CharNotEmpty(g) && SpaceRule(g) && t in OfItem(g, Ref("space"))
    requires i < |names| && PlainNames(names)
    ensures (exists w: Word :: GetsThrough(g, names, names[i], t, w)) <==> names[i] != [] || NoneNonEmpty(names)
  {
    if names[i] != [] {
      var w := Spelling(names[i], 0);
      NoBackslash(names, names[i][..0]);
      SpellingDecodes(names[i], 0);
      SpellingAccepted(g, names, i, 0);
      BuildKnows(names, w);
      ContentLanguage(g, Build(names), w);
      QuotedIffContent(g, names, w, t);
      assert GetsThrough(g, names, names[i], t, w);
    } else if NoneNonEmpty(names) {
      var none: Word := [];
      OnlyEmptyExcluded(g, names, none);
      QuotedIffContent(g, names, none, t);
      assert GetsThrough(g, names, names[i], t, none);
    } else {
      forall w: Word
        ensures !GetsThrough(g, names, names[i], t, w)
      {
        if GetsThrough(g, names, names[i], t, w) {
          EmptyDecodes(w);
          EmptyRefused(g, names, i, t);
        }
      }
    }
  }

  lemma EmptyRefused(g: Rules, names: seq<Word>, i: nat, t: Word)
    requires SpaceRule(g) && t in OfItem(g, Ref("space")) && i < |names| && names[i] == []
    requires !NoneNonEmpty(names)
    ensures [QUOTE] + [] + [QUOTE] + t !in OfSequence(g, NotStrings(names))
  {
    var none: Word := [];
    BuildKnows(names, none);
    RootHasChildren(names);
    ContentLanguage(g, Build(names), none);
    QuotedIffContent(g, names, none, t);
  }
}
