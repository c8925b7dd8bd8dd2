/** The names for which the classes in the text mean what they should, whether or not they read back as written. */
module SchemaStringsMeaning {
  import opened Wrappers
  import opened GbnfSyntax
  import opened GbnfLexer
  import opened GbnfReader
  import opened GbnfMeaning
  import opened SchemaStrings
  import opened SchemaStringsText

  // ----- one class

  /** The bracket at the start of `s` ends before `rest` and matches the same characters as the class given. */
  ghost predicate Means(s: string, negated: bool, parts: seq<Part>, rest: string)
    requires At(s, 0) == '['
  {
    var (sign, read) := Bracket(s);
    read.Some? && read.value.1 == rest && read.value.0 != [] &&
    forall x: nat :: ClassMatches(sign, read.value.0, x) <==> ClassMatches(negated, parts, x)
  }

  ghost predicate ChildMeans(c: nat, rest: string)
    requires c < 256
  {
    Means("[" + [c as char] + ("]" + rest), false, [Single(c)], rest)
  }

  ghost predicate RejectsMean(cs: seq<Child>, rest: string)
    requires AllBytes(cs)
  {
    Means("[^\"" + Raw(cs) + ("]" + rest), true, [Single(QUOTE)] + Singles(cs), rest)
  }

  /** Every class written for the trie matches what the rule means. */
  ghost predicate ClassesMean(t: Trie, rest: string)
    requires Bytes(t)
    decreases t
  {
    t.children != [] ==>
      && RejectsMean(t.children, rest)
      && (forall i :: 0 <= i < |t.children| ==> ChildMeans(t.children[i].c, rest) && ClassesMean(t.children[i].node, rest))
  }

  lemma OneMatches(c: nat, x: nat)
    ensures ClassMatches(false, [Single(c)], x) <==> x == c
  {
    assert PartMatches([Single(c)][0], x) <==> x == c;
  }

  /** A byte that is no ASCII character takes the bracket with it or is read as another character. */
  lemma HighByte(c: nat, after: string)
    requires 128 <= c < 256
    ensures var (value, rest) := Utf8([c as char] + ("]" + after));
      |rest| <= |after| || (value < 128 && rest == "]" + after)
  {
    var s := [c as char] + ("]" + after);
    assert s[1..] == "]" + after && s[0] as int % 256 == c;
    if c / 16 < 12 {
      assert Utf8Length(c / 16) == 1;
    } else {
      var len := Utf8Length(c / 16);
      assert len >= 2 && Utf8(s) == Continuation(s[1..], len - 1, c % LeadMask(len));
    }
  }

  /** A class of one byte whose character takes the bracket with it ends later, or not at all. */
  lemma TakesTheBracket(s: string, rest: string)
    requires Character(s).Some? && |Character(s).value.1| <= |rest|
    requires At(s, 0) != ']'
    ensures ClassParts(s, []).Some? ==> ClassParts(s, []).value.1 != rest
  {
    var first := ClassPart(s);
    if first.Some? {
      var (part, after) := first.value;
      if ClassParts(after, [] + [part]).Some? {
        PartsExtend(after, [] + [part]);
      }
    }
  }

  lemma HighChild(c: nat, rest: string)
    requires 128 <= c < 256
    ensures !ChildMeans(c, rest)
  {
    var s := [c as char] + ("]" + rest);
    assert ("[" + [c as char] + ("]" + rest))[1..] == s;
    HighByte(c, rest);
    var (value, after) := Utf8(s);
    if |after| <= |rest| {
      TakesTheBracket(s, rest);
    } else {
      assert ClassPart(s) == Some((Single(value), "]" + rest));
      assert ("]" + rest)[1..] == rest && [] + [Single(value)] == [Single(value)];
      assert ClassParts(s, []) == Some(([Single(value)], rest));
      OneMatches(c, c);
      OneMatches(value, c);
    }
  }

  lemma EscapeChild(rest: string)
    ensures !ChildMeans(92, rest)
  {
    var s := "\\" + ("]" + rest);
    assert ("[" + [92 as char] + ("]" + rest))[1..] == s;
    assert s[1..] == "]" + rest && s[2..] == rest;
    assert Character(s) == Some((93, rest));
    TakesTheBracket(s, rest);
  }

  /** A class of one byte means that byte exactly if the byte reads as itself. */
  lemma ChildMeansWhen(c: nat, rest: string)
    requires c < 256
    ensures ChildMeans(c, rest) <==> GoodByte(c)
  {
    var text := "[" + [c as char] + ("]" + rest);
    assert text[1..] == [c as char] + ("]" + rest) && text[2..] == "]" + rest;
    if GoodByte(c) {
      ChildReadsWhen(c, rest);
    } else if c >= 128 {
      HighChild(c, rest);
    } else if c == 92 {
      EscapeChild(rest);
    } else {
      assert c == 0 || c == 93 || c == CARET;
      assert ("]" + rest)[1..] == rest;
    }
  }

  // ----- a dash between two characters

  lemma SingleStep(text: string, acc: seq<Part>)
    requires |text| > 1 && Literally(text[0]) && text[1] != '-'
    ensures ClassParts(text, acc) == ClassParts(text[1..], acc + [Single(text[0] as int)])
  {
    LiteralCharacter(text);
    assert ClassPart(text) == Some((Single(text[0] as int), text[1..]));
  }

  lemma SingleIn(s: string, rest: string, acc: seq<Part>)
    requires |s| > 1 && Literally(s[0]) && s[1] != '-'
    ensures ClassParts(s + ("]" + rest), acc) == ClassParts(s[1..] + ("]" + rest), acc + [Single(s[0] as int)])
  {
    SingleStep(s + ("]" + rest), acc);
    assert (s + ("]" + rest))[1..] == s[1..] + ("]" + rest);
  }

  lemma SpanPart(text: string)
    requires |text| > 3 && Literally(text[0]) && text[1] == '-' && Literally(text[2])
    ensures ClassPart(text) == Some((Span(text[0] as int, text[2] as int), text[3..])) && At(text, 0) != ']'
  {
    LiteralCharacter(text);
    LiteralCharacter(text[2..]);
    assert text[1..][1..] == text[2..] && text[2..][1..] == text[3..];
  }

  lemma SpanStep(text: string, acc: seq<Part>)
    requires |text| > 3 && Literally(text[0]) && text[1] == '-' && Literally(text[2])
    ensures ClassParts(text, acc) == ClassParts(text[3..], acc + [Span(text[0] as int, text[2] as int)])
  {
    SpanPart(text);
  }

  lemma SpanIn(s: string, rest: string, acc: seq<Part>)
    requires |s| > 2 && Literally(s[0]) && s[1] == '-' && Literally(s[2])
    ensures ClassParts(s + ("]" + rest), acc) == ClassParts(s[3..] + ("]" + rest), acc + [Span(s[0] as int, s[2] as int)])
  {
    SpanStep(s + ("]" + rest), acc);
    assert (s + ("]" + rest))[3..] == s[3..] + ("]" + rest);
  }

  lemma RawClass(s: string, rest: string, acc: seq<Part>)
    requires forall i :: 0 <= i < |s| ==> Literally(s[i]) && s[i] != '-'
    ensures ClassParts(s + ("]" + rest), acc) == Some((acc + Characters(s), rest))
  {
    ReadsWhen(s);
    RawClassReads(s, rest, acc);
  }

  /** One dash, at `m`, with a character before and behind it. */
  predicate DashAt(s: string, m: nat) {
    1 <= m < |s| - 1 && forall i :: 0 <= i < |s| ==> Literally(s[i]) && (s[i] == '-' <==> i == m)
  }

  /** The parts then read: a range between the neighbours of the dash, and the other characters. */
  function SpanParts(s: string, m: nat): seq<Part>
    requires 1 <= m < |s| - 1
  {
    Characters(s[..m - 1]) + [Span(s[m - 1] as int, s[m + 1] as int)] + Characters(s[m + 2..])
  }

  lemma SpanFirst(s: string, rest: string, acc: seq<Part>)
    requires DashAt(s, 1)
    ensures ClassParts(s + ("]" + rest), acc) == Some((acc + [Span(s[0] as int, s[2] as int)] + Characters(s[3..]), rest))
  {
    SpanIn(s, rest, acc);
    RawClass(s[3..], rest, acc + [Span(s[0] as int, s[2] as int)]);
  }

  lemma DashAtRest(s: string, m: nat)
    requires DashAt(s, m) && m > 1
    ensures DashAt(s[1..], m - 1) && s[1] != '-' && Literally(s[0])
  {
  }

  lemma {:induction false} DashReadsAsSpan(s: string, m: nat, rest: string, acc: seq<Part>)
    requires DashAt(s, m)
    ensures ClassParts(s + ("]" + rest), acc) == Some((acc + SpanParts(s, m), rest))
    decreases |s|
  {
    if m == 1 {
      SpanFirst(s, rest, acc);
      SpanPartsFirst(s, acc);
    } else {
      DashAtRest(s, m);
      SingleIn(s, rest, acc);
      DashReadsAsSpan(s[1..], m - 1, rest, acc + [Single(s[0] as int)]);
      SpanPartsCons(s, m, acc);
    }
  }

  lemma SpanPartsFirst(s: string, acc: seq<Part>)
    requires |s| > 2
    ensures acc + [Span(s[0] as int, s[2] as int)] + Characters(s[3..]) == acc + SpanParts(s, 1)
  {
    assert s[..0] == [];
  }

  lemma SpanPartsCons(s: string, m: nat, acc: seq<Part>)
    requires 2 <= m < |s| - 1
    ensures acc + [Single(s[0] as int)] + SpanParts(s[1..], m - 1) == acc + SpanParts(s, m)
  {
    assert s[..m - 1][1..] == s[1..][..m - 2];
    assert Characters(s[..m - 1]) == [Single(s[0] as int)] + Characters(s[1..][..m - 2]);
    assert s[1..][m + 1..] == s[m + 2..];
    assert SpanParts(s, m) == [Single(s[0] as int)] + SpanParts(s[1..], m - 1);
  }

  lemma AnyMatchesConcat(a: seq<Part>, b: seq<Part>, x: nat)
    ensures AnyPartMatches(a + b, x) <==> AnyPartMatches(a, x) || AnyPartMatches(b, x)
  {
    assert forall i :: 0 <= i < |a| ==> (a + b)[i] == a[i];
    assert forall i :: 0 <= i < |b| ==> (a + b)[|a| + i] == b[i];
  }

  lemma CharactersConcat(a: string, b: string)
    ensures Characters(a + b) == Characters(a) + Characters(b)
  {
  }

  lemma ThreeCharacters(s: string, x: nat)
    requires |s| == 3
    ensures AnyPartMatches(Characters(s), x) <==> x == s[0] as int || x == s[1] as int || x == s[2] as int
  {
    var parts := Characters(s);
    assert PartMatches(parts[0], x) <==> x == s[0] as int;
    assert PartMatches(parts[1], x) <==> x == s[1] as int;
    assert PartMatches(parts[2], x) <==> x == s[2] as int;
  }

  lemma OneSpan(lo: nat, hi: nat, x: nat)
    ensures AnyPartMatches([Span(lo, hi)], x) <==> lo <= x <= hi
  {
    assert PartMatches([Span(lo, hi)][0], x) <==> lo <= x <= hi;
  }

  /** What the range adds are the characters between the neighbours of the dash. */
  lemma SpanAdds(s: string, m: nat, x: nat)
    requires 1 <= m < |s| - 1 && s[m - 1] <= s[m] <= s[m + 1]
    ensures AnyPartMatches(SpanParts(s, m), x) <==> AnyPartMatches(Characters(s), x) || s[m - 1] as int < x < s[m + 1] as int
  {
    var a, near, b := s[..m - 1], s[m - 1..m + 2], s[m + 2..];
    var span := [Span(s[m - 1] as int, s[m + 1] as int)];
    assert s == a + near + b;
    CharactersConcat(a + near, b);
    CharactersConcat(a, near);
    AnyMatchesConcat(Characters(a) + span, Characters(b), x);
    AnyMatchesConcat(Characters(a), span, x);
    AnyMatchesConcat(Characters(a) + Characters(near), Characters(b), x);
    AnyMatchesConcat(Characters(a), Characters(near), x);
    ThreeCharacters(near, x);
    OneSpan(s[m - 1] as int, s[m + 1] as int, x);
  }

  // ----- the class of what no branch takes

  predicate HasChild(cs: seq<Child>, c: nat) {
    Lookup(cs, c).Some?
  }

  /** The dash is last, or the characters beside it, comma and dot, are there as well. */
  predicate DashHarmless(cs: seq<Child>) {
    forall i :: 0 <= i < |cs| - 1 && cs[i].c == DASH ==> HasChild(cs, DASH - 1) && HasChild(cs, DASH + 1)
  }

  predicate AllGoodBytes(cs: seq<Child>) {
    forall i :: 0 <= i < |cs| ==> GoodByte(cs[i].c)
  }

  predicate NodeMeans(cs: seq<Child>) {
    AllGoodBytes(cs) && DashHarmless(cs)
  }

  function Inside(cs: seq<Child>): (s: string)
    requires AllBytes(cs)
    ensures |s| == |cs| + 1 && s[0] as int == QUOTE && forall i :: 0 < i < |s| ==> s[i] as int == cs[i - 1].c
  {
    "\"" + Raw(cs)
  }

  lemma {:induction false} InsideCharacters(cs: seq<Child>)
    requires AllBytes(cs)
    ensures Characters(Inside(cs)) == [Single(QUOTE)] + Singles(cs)
  {
    RawCharacters(cs);
    assert Inside(cs)[1..] == Raw(cs);
  }

  /** The character before a dash, and the one behind it. */
  function Left(cs: seq<Child>, k: nat): nat
    requires k < |cs|
  {
    if k == 0 then QUOTE else cs[k - 1].c
  }

  predicate Between(cs: seq<Child>, k: nat, x: nat)
    requires k < |cs| - 1
  {
    Left(cs, k) < x < cs[k + 1].c
  }

  lemma {:induction false} InsideDash(cs: seq<Child>, k: nat)
    requires AllBytes(cs) && Sorted(cs) && AllGoodBytes(cs) && k < |cs| - 1 && cs[k].c == DASH
    ensures DashAt(Inside(cs), k + 1)
    ensures Inside(cs)[k] as int == Left(cs, k) && Inside(cs)[k] <= Inside(cs)[k + 1] <= Inside(cs)[k + 2]
  {
    var s := Inside(cs);
    forall i | 0 <= i < |s|
      ensures Literally(s[i]) && (s[i] == '-' <==> i == k + 1)
    {
      if i > 0 {
        assert GoodByte(cs[i - 1].c);
      }
    }
  }

  lemma {:induction false} DashClassReads(cs: seq<Child>, k: nat, rest: string)
    requires AllBytes(cs) && Sorted(cs) && AllGoodBytes(cs) && k < |cs| - 1 && cs[k].c == DASH
    ensures Bracket("[^\"" + Raw(cs) + ("]" + rest)) == (true, Some((SpanParts(Inside(cs), k + 1), rest)))
  {
    assert ("[^\"" + Raw(cs) + ("]" + rest))[2..] == Inside(cs) + ("]" + rest);
    InsideDash(cs, k);
    DashReadsAsSpan(Inside(cs), k + 1, rest, []);
    assert [] + SpanParts(Inside(cs), k + 1) == SpanParts(Inside(cs), k + 1);
  }

  lemma {:induction false} DashClassMatches(cs: seq<Child>, k: nat, x: nat)
    requires AllBytes(cs) && Sorted(cs) && AllGoodBytes(cs) && k < |cs| - 1 && cs[k].c == DASH
    ensures AnyPartMatches(SpanParts(Inside(cs), k + 1), x) <==>
      AnyPartMatches([Single(QUOTE)] + Singles(cs), x) || Between(cs, k, x)
  {
    InsideDash(cs, k);
    InsideCharacters(cs);
    SpanAdds(Inside(cs), k + 1, x);
  }

  /** Nothing is missing between the neighbours of the dash exactly if they are the comma and the dot. */
  lemma {:induction false} NothingBetween(cs: seq<Child>, k: nat)
    requires Sorted(cs) && k < |cs| - 1 && cs[k].c == DASH
    ensures (forall x: nat :: Between(cs, k, x) ==> x == QUOTE || HasChild(cs, x)) <==>
      HasChild(cs, DASH - 1) && HasChild(cs, DASH + 1)
  {
    forall x: nat | (if k == 0 then 0 else cs[k - 1].c + 1) <= x < cs[k + 1].c && x != DASH
      ensures !HasChild(cs, x)
    {
      if HasChild(cs, x) {
        var i :| 0 <= i < |cs| && cs[i] == Child(x, Lookup(cs, x).value);
        NoneBetween(cs, k, i);
      }
    }
    if HasChild(cs, DASH - 1) {
      assert k > 0 && cs[k - 1].c == DASH - 1;
    }
    if HasChild(cs, DASH + 1) {
      assert cs[k + 1].c == DASH + 1;
    }
    LookupFinds(cs, k);
    LookupFinds(cs, k + 1);
    if k > 0 {
      LookupFinds(cs, k - 1);
    }
  }

  lemma {:induction false} NoneBetween(cs: seq<Child>, k: nat, i: nat)
    requires Sorted(cs) && k < |cs| - 1 && i < |cs|
    ensures cs[i].c >= cs[k + 1].c || i == k || (k > 0 && cs[i].c <= cs[k - 1].c)
  {
  }

  lemma {:induction false} DashRejectsMean(cs: seq<Child>, k: nat, rest: string)
    requires AllBytes(cs) && Sorted(cs) && AllGoodBytes(cs) && k < |cs| - 1 && cs[k].c == DASH
    ensures RejectsMean(cs, rest) <==> forall x: nat :: Between(cs, k, x) ==> x == QUOTE || HasChild(cs, x)
  {
    DashClassReads(cs, k, rest);
    var parts := SpanParts(Inside(cs), k + 1);
    var meant := [Single(QUOTE)] + Singles(cs);
    forall x: nat
      ensures (ClassMatches(true, parts, x) <==> ClassMatches(true, meant, x)) <==> (Between(cs, k, x) ==> x == QUOTE || HasChild(cs, x))
    {
      RejectMatches(cs, x);
      DashClassMatches(cs, k, x);
    }
  }

  lemma {:induction false} RejectsMeanWhen(cs: seq<Child>, rest: string)
    requires AllBytes(cs) && Sorted(cs) && cs != [] && AllGoodBytes(cs)
    ensures RejectsMean(cs, rest) <==> DashHarmless(cs)
  {
    if k :| 0 <= k < |cs| - 1 && cs[k].c == DASH {
      DashRejectsMean(cs, k, rest);
      NothingBetween(cs, k);
      assert forall i :: 0 <= i < |cs| && cs[i].c == DASH ==> i == k;
    } else {
      RejectsReadWhen(cs, rest);
    }
  }

  // ----- all the classes

  predicate Meaningful(t: Trie)
    decreases t
  {
    NodeMeans(t.children) && forall i :: 0 <= i < |t.children| ==> Meaningful(t.children[i].node)
  }

  lemma {:induction false} ClassesMeanWhen(t: Trie, rest: string)
    requires Bytes(t) && Proper(t)
    ensures ClassesMean(t, rest) <==> Meaningful(t)
    decreases t
  {
    forall i | 0 <= i < |t.children|
      ensures ChildMeans(t.children[i].c, rest) <==> GoodByte(t.children[i].c)
      ensures ClassesMean(t.children[i].node, rest) <==> Meaningful(t.children[i].node)
    {
      ChildMeansWhen(t.children[i].c, rest);
      ClassesMeanWhen(t.children[i].node, rest);
    }
    if t.children != [] && AllGoodBytes(t.children) {
      RejectsMeanWhen(t.children, rest);
    }
  }

  // ----- which names those are

  /** Where the names go on with a dash and with a later character, they also go on with a comma and with a dot. */
  ghost predicate PathMeans(t: Trie, w: Word) {
    && (forall c: nat :: HasPath(t, w + [c]) ==> GoodByte(c))
    && (forall d: nat :: d > DASH && HasPath(t, w + [d]) && HasPath(t, w + [DASH]) ==>
          HasPath(t, w + [DASH - 1]) && HasPath(t, w + [DASH + 1]))
  }

  lemma HerePaths(t: Trie)
    ensures forall c: nat :: HasPath(t, [] + [c]) <==> HasChild(t.children, c)
  {
    forall c: nat
      ensures HasPath(t, [] + [c]) <==> HasChild(t.children, c)
    {
      FollowOne(t, c);
    }
  }

  lemma MeansHere(t: Trie)
    requires Proper(t)
    ensures PathMeans(t, []) <==> NodeMeans(t.children)
  {
    HerePaths(t);
    if PathMeans(t, []) {
      PathMeansNode(t);
    }
    if NodeMeans(t.children) {
      NodeMeansPath(t);
    }
  }

  lemma PathMeansNode(t: Trie)
    requires Proper(t) && PathMeans(t, []) && forall c: nat :: HasPath(t, [] + [c]) <==> HasChild(t.children, c)
    ensures NodeMeans(t.children)
  {
    var cs := t.children;
    forall i | 0 <= i < |cs|
      ensures HasChild(cs, cs[i].c) && GoodByte(cs[i].c)
    {
      LookupFinds(cs, i);
      assert HasPath(t, [] + [cs[i].c]);
    }
    forall i | 0 <= i < |cs| - 1 && cs[i].c == DASH
      ensures HasChild(cs, DASH - 1) && HasChild(cs, DASH + 1)
    {
      assert HasPath(t, [] + [DASH]) && HasPath(t, [] + [cs[i + 1].c]);
    }
  }

  lemma NodeMeansPath(t: Trie)
    requires Proper(t) && NodeMeans(t.children) && forall c: nat :: HasPath(t, [] + [c]) <==> HasChild(t.children, c)
    ensures PathMeans(t, [])
  {
    var cs := t.children;
    forall c: nat | HasPath(t, [] + [c])
      ensures GoodByte(c)
    {
      var i := ChildAt(cs, c);
    }
    forall d: nat | d > DASH && HasPath(t, [] + [d]) && HasPath(t, [] + [DASH])
      ensures HasPath(t, [] + [DASH - 1]) && HasPath(t, [] + [DASH + 1])
    {
      var i := ChildAt(cs, DASH);
      var j := ChildAt(cs, d);
      assert i < j;
    }
  }

  lemma {:induction false} ChildAt(cs: seq<Child>, c: nat) returns (i: nat)
    requires HasChild(cs, c)
    ensures i < |cs| && cs[i] == Child(c, Lookup(cs, c).value)
  {
    i :| 0 <= i < |cs| && cs[i] == Child(c, Lookup(cs, c).value);
  }

  lemma MeansBelow(t: Trie, w: Word)
    requires w != []
    ensures PathMeans(t, w) <==> (HasChild(t.children, w[0]) ==> PathMeans(Lookup(t.children, w[0]).value, w[1..]))
  {
    forall c: nat
      ensures HasPath(t, w + [c]) <==> HasChild(t.children, w[0]) && HasPath(Lookup(t.children, w[0]).value, w[1..] + [c])
    {
      FollowMore(t, w, c);
    }
  }

  lemma {:induction false} MeaningfulPaths(t: Trie, w: Word)
    requires Proper(t) && Meaningful(t)
    ensures PathMeans(t, w)
    decreases |w|
  {
    if w == [] {
      MeansHere(t);
    } else {
      MeansBelow(t, w);
      if HasChild(t.children, w[0]) {
        var i := ChildAt(t.children, w[0]);
        MeaningfulPaths(t.children[i].node, w[1..]);
      }
    }
  }

  lemma {:induction false} PathsMakeMeaningful(t: Trie)
    requires Proper(t) && forall w: Word :: PathMeans(t, w)
    ensures Meaningful(t)
    decreases t
  {
    MeansHere(t);
    forall i | 0 <= i < |t.children|
      ensures Meaningful(t.children[i].node)
    {
      LookupFinds(t.children, i);
      forall w: Word
        ensures PathMeans(t.children[i].node, w)
      {
        var longer := [t.children[i].c] + w;
        assert longer[1..] == w;
        MeansBelow(t, longer);
      }
      PathsMakeMeaningful(t.children[i].node);
    }
  }

  /** All bytes read as themselves, and where one name goes on with a dash and another with a later character, one goes on with a
      comma and one with a dot. */
  ghost predicate NamesMean(names: seq<Word>) {
    && (forall i, n :: 0 <= i < |names| && 0 <= n < |names[i]| ==> GoodByte(names[i][n]))
    && (forall i, j, n :: 0 <= i < |names| && 0 <= j < |names| && 0 <= n < |names[i]| && n < |names[j]| ==>
          names[i][..n] == names[j][..n] && names[i][n] == DASH && names[j][n] > DASH ==>
          IsPrefixOfOne(names, names[i][..n] + [DASH - 1]) && IsPrefixOfOne(names, names[i][..n] + [DASH + 1]))
  }

  lemma NamesMeanPath(names: seq<Word>, w: Word)
    requires NamesMean(names)
    ensures PathMeans(Build(names), w)
  {
    var t := Build(names);
    forall c: nat | HasPath(t, w + [c])
      ensures GoodByte(c)
    {
      var i := PathName(names, w, c);
    }
    forall d: nat | d > DASH && HasPath(t, w + [d]) && HasPath(t, w + [DASH])
      ensures HasPath(t, w + [DASH - 1]) && HasPath(t, w + [DASH + 1])
    {
      var i := PathName(names, w, DASH);
      var j := PathName(names, w, d);
      BuildKnows(names, w + [DASH - 1]);
      BuildKnows(names, w + [DASH + 1]);
    }
  }

  lemma PathsMeanNames(names: seq<Word>)
    requires forall w: Word :: PathMeans(Build(names), w)
    ensures NamesMean(names)
  {
    forall i, n | 0 <= i < |names| && 0 <= n < |names[i]|
      ensures GoodByte(names[i][n])
    {
      NamePath(names, i, n);
      assert PathMeans(Build(names), names[i][..n]);
    }
    forall i, j, n | 0 <= i < |names| && 0 <= j < |names| && 0 <= n < |names[i]| && n < |names[j]|
      && names[i][..n] == names[j][..n] && names[i][n] == DASH && names[j][n] > DASH
      ensures IsPrefixOfOne(names, names[i][..n] + [DASH - 1]) && IsPrefixOfOne(names, names[i][..n] + [DASH + 1])
    {
      var w := names[i][..n];
      NamePath(names, i, n);
      NamePath(names, j, n);
      assert PathMeans(Build(names), w);
      BuildKnows(names, w + [DASH - 1]);
      BuildKnows(names, w + [DASH + 1]);
    }
  }

  /** Every class emitted for the names matches the characters it should exactly if the names are such. */
  lemma ClassesMeanIffNames(names: seq<Word>, rest: string)
    requires AreBytes(names)
    ensures Bytes(Build(names)) && (ClassesMean(Build(names), rest) <==> NamesMean(names))
  {
    var t := Build(names);
    BuildBytes(names);
    BuildKnows(names, []);
    ClassesMeanWhen(t, rest);
    if Meaningful(t) {
      forall w: Word
        ensures PathMeans(t, w)
      {
        MeaningfulPaths(t, w);
      }
      PathsMeanNames(names);
    }
    if NamesMean(names) {
      forall w: Word
        ensures PathMeans(t, w)
      {
        NamesMeanPath(names, w);
      }
      PathsMakeMeaningful(t);
    }
  }

  /** `,x`, `-x` and `.x`: the range that is read is what was meant. */
  lemma CommaDashDot()
    ensures var names := [[44, 120], [45, 120], [46, 120]]; NamesMean(names) && !NamesReadable(names)
  {
    var names: seq<Word> := [[44, 120], [45, 120], [46, 120]];
    assert [44] <= names[0] && [46] <= names[2];
    assert IsPrefixOfOne(names, [44]) && IsPrefixOfOne(names, [46]);
    forall i, j, n | 0 <= i < |names| && 0 <= j < |names| && 0 <= n < |names[i]| && n < |names[j]|
      && names[i][..n] == names[j][..n] && names[i][n] == DASH && names[j][n] > DASH
      ensures n == 0 && names[i][..n] + [44] == [44] && names[i][..n] + [46] == [46]
    {
    }
    assert names[1][..0] == names[2][..0] && names[1][0] == DASH && names[2][0] > DASH;
  }
}
