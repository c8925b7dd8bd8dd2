/** The text of the rule for other keys, and the names for which the parser reads it as meant. */
module SchemaStringsText {
  import opened Wrappers
  import opened GbnfSyntax
  import opened GbnfLexer
  import opened GbnfReader
  import opened GbnfMeaning
  import opened GbnfPrinter
  import opened SchemaStrings

  // ----- the text

  /** A name is a string of bytes; each is written as it is. */
  predicate Bytes(t: Trie)
    decreases t
  {
    forall i :: 0 <= i < |t.children| ==> t.children[i].c < 256 && Bytes(t.children[i].node)
  }

  predicate AllBytes(cs: seq<Child>) {
    forall i :: 0 <= i < |cs| ==> cs[i].c < 256 && Bytes(cs[i].node)
  }

  function Raw(cs: seq<Child>): (s: string)
    requires AllBytes(cs)
    ensures |s| == |cs| && forall i :: 0 <= i < |s| ==> s[i] as int == cs[i].c
  {
    if cs == [] then "" else [cs[0].c as char] + Raw(cs[1..])
  }

  function BranchText(child: Child): string
    requires child.c < 256 && Bytes(child.node)
    decreases child, 1
  {
    "[" + [child.c as char] + "]" + (
      if child.node.children != [] then " (" + VisitText(child.node) + ")"
      else if child.node.isEnd then " char+"
      else "")
  }

  function BranchesText(cs: seq<Child>): string
    requires cs != [] && AllBytes(cs)
    decreases cs
  {
    if |cs| == 1 then BranchText(cs[0]) else BranchesText(cs[..|cs| - 1]) + " | " + BranchText(cs[|cs| - 1])
  }

  function RejectsText(cs: seq<Child>): string
    requires AllBytes(cs)
  {
    "[^\"" + Raw(cs) + "] char*"
  }

  function VisitText(node: Trie): string
    requires node.children != [] && Bytes(node)
    decreases node, 0
  {
    BranchesText(node.children) + " | " + RejectsText(node.children)
  }

  /** `_not_strings`, on strings. */
  function NotStringsText(trie: Trie): string
    requires Bytes(trie)
  {
    "[\"] ( " + (if trie.children != [] then VisitText(trie) else "") + " )" + (if trie.isEnd then "" else "?") + " [\"] space"
  }

  // ----- when a class reads as it was written

  /** Bytes that stand for themselves in a class. */
  predicate Literally(c: char) {
    '\0' < c < 128 as char && c != '\\' && c != ']'
  }

  /** All stand for themselves, and no dash has a character before and behind it. */
  predicate ReadsAsWritten(s: string) {
    s != "" ==>
      && Literally(s[0])
      && !(|s| > 2 && s[1] == '-')
      && ReadsAsWritten(s[1..])
  }

  function Characters(s: string): (parts: seq<Part>)
    ensures |parts| == |s| && forall i :: 0 <= i < |s| ==> parts[i] == Single(s[i] as int)
  {
    if s == "" then [] else [Single(s[0] as int)] + Characters(s[1..])
  }

  lemma {:induction false} PartsExtend(s: string, acc: seq<Part>)
    requires ClassParts(s, acc).Some?
    ensures var (all, rest) := ClassParts(s, acc).value;
      acc <= all && |rest| + 1 + (|all| - |acc|) <= |s|
    decreases |s|
  {
    if At(s, 0) != ']' {
      var (part, rest) := ClassPart(s).value;
      PartsExtend(rest, acc + [part]);
    }
  }

  /** A byte that is no ASCII character is never read as one character with its own code. */
  lemma HighByteMisread(s: string)
    requires |s| > 1 && s[0] as int >= 128 && s[1] != '\0'
    ensures |Utf8(s).1| + 1 < |s| || Utf8(s).0 < 128
  {
  }

  /** Bytes written between brackets are read back one by one exactly if they read as written. */
  lemma {:induction false} RawClassReads(s: string, rest: string, acc: seq<Part>)
    ensures ClassParts(s + ("]" + rest), acc) == Some((acc + Characters(s), rest)) <==> ReadsAsWritten(s)
    decreases |s|
  {
    var text := s + ("]" + rest);
    if s == "" {
      assert text == "]" + rest && acc + [] == acc;
    } else {
      assert text[1..] == s[1..] + ("]" + rest);
      if s[0] == ']' {
        assert ClassParts(text, acc) == Some((acc, text[1..]));
      } else if !Literally(s[0]) {
        OddCharacter(s, rest, acc);
      } else if |s| > 2 && s[1] == '-' && s[2] != ']' {
        DashSpans(s, rest, acc);
      } else {
        LiteralCharacter(text);
        assert ClassPart(text) == Some((Single(s[0] as int), text[1..]));
        RawClassReads(s[1..], rest, acc + [Single(s[0] as int)]);
        assert acc + [Single(s[0] as int)] + Characters(s[1..]) == acc + Characters(s);
      }
    }
  }

  lemma LiteralCharacter(s: string)
    requires s != "" && Literally(s[0])
    ensures Character(s) == Some((s[0] as int, s[1..]))
  {
    OneByte(s);
  }

  lemma OneByte(s: string)
    requires s != "" && s[0] < 128 as char
    ensures Utf8(s) == (s[0] as int, s[1..])
  {
    assert s[0] as int % 256 == s[0] as int && s[0] as int / 16 < 8;
  }

  lemma OddCharacter(s: string, rest: string, acc: seq<Part>)
    requires s != "" && s[0] != ']' && !Literally(s[0])
    ensures ClassParts(s + ("]" + rest), acc) != Some((acc + Characters(s), rest))
  {
    var text := s + ("]" + rest);
    var first := ClassPart(text);
    if first.Some? {
      var (part, after) := first.value;
      if ClassParts(after, acc + [part]).Some? {
        PartsExtend(after, acc + [part]);
        var (all, left) := ClassParts(after, acc + [part]).value;
        assert all[|acc|] == part;
        OddPart(s, rest);
        assert (acc + Characters(s))[|acc|] == Single(s[0] as int);
      }
    }
  }

  /** An escape, a NUL or a high byte takes more than itself or reads as another character. */
  lemma OddPart(s: string, rest: string)
    requires s != "" && s[0] != ']' && !Literally(s[0])
    requires ClassPart(s + ("]" + rest)).Some?
    ensures var (part, after) := ClassPart(s + ("]" + rest)).value;
      part != Single(s[0] as int) || |after| + 1 < |s + ("]" + rest)|
  {
    var text := s + ("]" + rest);
    if s[0] as int >= 128 && text[1] != '\0' {
      HighByteMisread(text);
    }
  }

  lemma DashSpans(s: string, rest: string, acc: seq<Part>)
    requires |s| > 2 && Literally(s[0]) && s[1] == '-' && s[2] != ']'
    ensures ClassParts(s + ("]" + rest), acc) != Some((acc + Characters(s), rest))
  {
    var text := s + ("]" + rest);
    LiteralCharacter(text);
    var first := ClassPart(text);
    if first.Some? {
      var (part, after) := first.value;
      assert part.Span?;
      if ClassParts(after, acc + [part]).Some? {
        PartsExtend(after, acc + [part]);
        assert ClassParts(after, acc + [part]).value.0[|acc|] == part;
        assert (acc + Characters(s))[|acc|] == Single(s[0] as int);
      }
    }
  }

  lemma {:induction false} ReadsWhen(s: string)
    ensures ReadsAsWritten(s) <==>
      && (forall i :: 0 <= i < |s| ==> Literally(s[i]))
      && (forall i :: 0 < i < |s| - 1 ==> s[i] != '-')
    decreases |s|
  {
    if s != "" {
      ReadsWhen(s[1..]);
      assert forall i :: 0 < i < |s| ==> s[i] == s[1..][i - 1];
    }
  }

  // ----- the classes of a node

  /** The class a bracket starts: whether it is negated, and its parts. */
  function Bracket(s: string): (bool, Option<(seq<Part>, string)>)
    requires At(s, 0) == '['
  {
    var negated := At(s, 1) == '^';
    (negated, ClassParts(if negated then s[2..] else s[1..], []))
  }

  ghost predicate ChildReads(c: nat, rest: string)
    requires c < 256
  {
    Bracket("[" + [c as char] + ("]" + rest)) == (false, Some(([Single(c)], rest)))
  }

  ghost predicate RejectsRead(cs: seq<Child>, rest: string)
    requires AllBytes(cs)
  {
    Bracket("[^\"" + Raw(cs) + ("]" + rest)) == (true, Some(([Single(QUOTE)] + Singles(cs), rest)))
  }

  /** Every class written for the trie reads as the one the rule means. */
  ghost predicate ClassesRead(t: Trie, rest: string)
    requires Bytes(t)
    decreases t
  {
    t.children != [] ==>
      && RejectsRead(t.children, rest)
      && (forall i :: 0 <= i < |t.children| ==> ChildReads(t.children[i].c, rest) && ClassesRead(t.children[i].node, rest))
  }

  const DASH: nat := 45

  const CARET: nat := 94

  predicate GoodByte(c: nat) {
    0 < c < 128 && c != 92 && c != 93 && c != CARET
  }

  predicate NodeReadable(cs: seq<Child>) {
    && (forall i :: 0 <= i < |cs| ==> GoodByte(cs[i].c))
    && (forall i :: 0 <= i < |cs| - 1 ==> cs[i].c != DASH)
  }

  lemma ChildReadsWhen(c: nat, rest: string)
    requires c < 256
    ensures ChildReads(c, rest) <==> GoodByte(c)
  {
    var one := [c as char];
    var text := "[" + one + ("]" + rest);
    assert text[1..] == one + ("]" + rest) && text[1] == c as char;
    if c != CARET {
      RawClassReads(one, rest, []);
      assert [] + Characters(one) == [Single(c)];
      ReadsWhen(one);
      assert one[0] == c as char;
    }
  }

  lemma {:induction false} RawCharacters(cs: seq<Child>)
    requires AllBytes(cs)
    ensures Characters(Raw(cs)) == Singles(cs)
    decreases |cs|
  {
    if cs != [] {
      RawCharacters(cs[1..]);
    }
  }

  lemma RejectsReadWhen(cs: seq<Child>, rest: string)
    requires AllBytes(cs) && cs != []
    requires forall i :: 0 <= i < |cs| ==> cs[i].c != CARET
    ensures RejectsRead(cs, rest) <==> NodeReadable(cs)
  {
    var inside := "\"" + Raw(cs);
    var text := "[^\"" + Raw(cs) + ("]" + rest);
    assert text[2..] == inside + ("]" + rest);
    RawClassReads(inside, rest, []);
    RawCharacters(cs);
    assert inside[1..] == Raw(cs) && inside[0] as int == QUOTE;
    assert [] + Characters(inside) == [Single(QUOTE)] + Singles(cs);
    ReadsWhen(inside);
    var raw := Raw(cs);
    assert forall i :: 0 <= i < |raw| ==> inside[i + 1] == raw[i];
    GoodWhenLiteral(cs, inside);
  }

  lemma GoodWhenLiteral(cs: seq<Child>, inside: string)
    requires AllBytes(cs) && cs != [] && |inside| == |cs| + 1 && inside[0] as int == QUOTE
    requires forall i :: 0 <= i < |cs| ==> inside[i + 1] as int == cs[i].c && cs[i].c != CARET
    ensures NodeReadable(cs) <==>
      (forall i :: 0 <= i < |inside| ==> Literally(inside[i])) && (forall i :: 0 < i < |inside| - 1 ==> inside[i] != '-')
  {
    forall i | 0 <= i < |cs|
      ensures GoodByte(cs[i].c) <==> Literally(inside[i + 1])
    {
    }
    if forall i :: 0 <= i < |inside| ==> Literally(inside[i]) {
      forall i | 0 <= i < |cs|
        ensures GoodByte(cs[i].c)
      {
        assert Literally(inside[i + 1]);
      }
    }
    if forall i :: 0 < i < |inside| - 1 ==> inside[i] != '-' {
      forall i | 0 <= i < |cs| - 1
        ensures cs[i].c != DASH
      {
        assert inside[i + 1] != '-';
      }
    }
    if NodeReadable(cs) {
      forall i | 0 < i < |inside|
        ensures Literally(inside[i]) && (i < |inside| - 1 ==> inside[i] != '-')
      {
        assert inside[i] as int == cs[i - 1].c && GoodByte(cs[i - 1].c);
      }
    }
  }

  predicate Readable(t: Trie)
    decreases t
  {
    NodeReadable(t.children) && forall i :: 0 <= i < |t.children| ==> Readable(t.children[i].node)
  }

  /** The classes read as meant exactly if every node is readable. */
  lemma {:induction false} ClassesReadWhen(t: Trie, rest: string)
    requires Bytes(t)
    ensures ClassesRead(t, rest) <==> Readable(t)
    decreases t
  {
    forall i | 0 <= i < |t.children|
      ensures ChildReads(t.children[i].c, rest) <==> GoodByte(t.children[i].c)
      ensures ClassesRead(t.children[i].node, rest) <==> Readable(t.children[i].node)
    {
      ChildReadsWhen(t.children[i].c, rest);
      ClassesReadWhen(t.children[i].node, rest);
    }
    if t.children != [] && forall i :: 0 <= i < |t.children| ==> GoodByte(t.children[i].c) {
      RejectsReadWhen(t.children, rest);
    }
  }

  // ----- which names those are

  /** All bytes read as written, and where one name goes on with a dash, no other goes on with a later character. */
  predicate NamesReadable(names: seq<Word>) {
    && (forall i, n :: 0 <= i < |names| && 0 <= n < |names[i]| ==> GoodByte(names[i][n]))
    && (forall i, j, n :: 0 <= i < |names| && 0 <= j < |names| && 0 <= n < |names[i]| && n < |names[j]| ==>
          !(names[i][..n] == names[j][..n] && names[i][n] == DASH && names[j][n] > DASH))
  }

  ghost predicate PathReadable(t: Trie, w: Word, c: nat) {
    HasPath(t, w + [c]) ==> GoodByte(c) && (c == DASH ==> forall d: nat :: d > DASH ==> !HasPath(t, w + [d]))
  }

  lemma FollowOne(t: Trie, c: nat)
    ensures HasPath(t, [] + [c]) <==> Lookup(t.children, c).Some?
  {
    assert [] + [c] == [c] && [c][1..] == [];
    FollowChild(t, [c]);
  }

  lemma FollowMore(t: Trie, w: Word, c: nat)
    requires w != []
    ensures HasPath(t, w + [c]) <==> Lookup(t.children, w[0]).Some? && HasPath(Lookup(t.children, w[0]).value, w[1..] + [c])
  {
    assert (w + [c])[1..] == w[1..] + [c] && (w + [c])[0] == w[0];
    FollowChild(t, w + [c]);
  }

  lemma LookupFinds(cs: seq<Child>, i: nat)
    requires Sorted(cs) && i < |cs|
    ensures Lookup(cs, cs[i].c) == Some(cs[i].node)
  {
    var r := Lookup(cs, cs[i].c);
    if r.Some? {
      var j :| 0 <= j < |cs| && cs[j] == Child(cs[i].c, r.value);
      assert i == j;
    }
  }

  lemma {:induction false} NoneLater(cs: seq<Child>, d: nat)
    requires Sorted(cs) && (cs != [] ==> cs[|cs| - 1].c < d)
    ensures Lookup(cs, d).None?
    decreases |cs|
  {
    if cs != [] {
      assert cs[0].c <= cs[|cs| - 1].c;
      NoneLater(cs[1..], d);
    }
  }

  lemma {:induction false} ReadablePath(t: Trie, w: Word, c: nat)
    requires Proper(t) && Readable(t)
    ensures PathReadable(t, w, c)
    decreases |w|
  {
    if w == [] {
      FollowOne(t, c);
      if HasPath(t, w + [c]) {
        var i :| 0 <= i < |t.children| && t.children[i] == Child(c, Lookup(t.children, c).value);
        assert c == DASH ==> i == |t.children| - 1;
        forall d: nat | c == DASH && d > DASH
          ensures !HasPath(t, w + [d])
        {
          FollowOne(t, d);
          NoneLater(t.children, d);
        }
      }
    } else {
      FollowMore(t, w, c);
      var child := Lookup(t.children, w[0]);
      if child.Some? {
        var i :| 0 <= i < |t.children| && t.children[i] == Child(w[0], child.value);
        ReadablePath(child.value, w[1..], c);
        forall d: nat
          ensures HasPath(t, w + [d]) <==> HasPath(child.value, w[1..] + [d])
        {
          FollowMore(t, w, d);
        }
      }
    }
  }

  lemma {:induction false} PathsMakeReadable(t: Trie)
    requires Proper(t) && forall w: Word, c: nat :: PathReadable(t, w, c)
    ensures Readable(t)
    decreases t
  {
    forall i | 0 <= i < |t.children|
      ensures GoodByte(t.children[i].c) && (i < |t.children| - 1 ==> t.children[i].c != DASH)
    {
      var c, last := t.children[i].c, t.children[|t.children| - 1].c;
      LookupFinds(t.children, i);
      FollowOne(t, c);
      assert PathReadable(t, [], c);
      if i < |t.children| - 1 && c == DASH {
        LookupFinds(t.children, |t.children| - 1);
        FollowOne(t, last);
      }
    }
    forall i | 0 <= i < |t.children|
      ensures Readable(t.children[i].node)
    {
      ChildPaths(t, i);
      PathsMakeReadable(t.children[i].node);
    }
  }

  lemma ChildPaths(t: Trie, i: nat)
    requires Proper(t) && i < |t.children| && forall w: Word, c: nat :: PathReadable(t, w, c)
    ensures forall w: Word, c: nat :: PathReadable(t.children[i].node, w, c)
  {
    LookupFinds(t.children, i);
    forall w: Word, c: nat
      ensures PathReadable(t.children[i].node, w, c)
    {
      var longer := [t.children[i].c] + w;
      assert longer[1..] == w;
      assert PathReadable(t, longer, c);
      forall d: nat
        ensures HasPath(t, longer + [d]) <==> HasPath(t.children[i].node, w + [d])
      {
        FollowMore(t, longer, d);
      }
    }
  }

  /** The paths of the trie are good exactly if the names are. */
  lemma NamesDecidePaths(names: seq<Word>, t: Trie)
    requires t == Build(names)
    ensures NamesReadable(names) <==> forall w: Word, c: nat :: PathReadable(t, w, c)
  {
    if NamesReadable(names) {
      forall w: Word, c: nat
        ensures PathReadable(t, w, c)
      {
        NamesReadablePath(names, w, c);
      }
    }
    if forall w: Word, c: nat :: PathReadable(t, w, c) {
      forall i, n | 0 <= i < |names| && 0 <= n < |names[i]|
        ensures GoodByte(names[i][n])
      {
        NamePath(names, i, n);
        assert PathReadable(t, names[i][..n], names[i][n]);
      }
      forall i, j, n | 0 <= i < |names| && 0 <= j < |names| && 0 <= n < |names[i]| && n < |names[j]|
        ensures !(names[i][..n] == names[j][..n] && names[i][n] == DASH && names[j][n] > DASH)
      {
        NamePath(names, i, n);
        NamePath(names, j, n);
        assert PathReadable(t, names[i][..n], names[i][n]);
      }
    }
  }

  lemma NamePath(names: seq<Word>, i: nat, n: nat)
    requires i < |names| && n < |names[i]|
    ensures HasPath(Build(names), names[i][..n] + [names[i][n]])
  {
    var w := names[i][..n] + [names[i][n]];
    assert w == names[i][..n + 1];
    BuildKnows(names, w);
    assert IsPrefixOfOne(names, w);
  }

  lemma PathName(names: seq<Word>, w: Word, c: nat) returns (i: nat)
    requires HasPath(Build(names), w + [c])
    ensures i < |names| && |w| < |names[i]| && names[i][..|w|] == w && names[i][|w|] == c
  {
    BuildKnows(names, w + [c]);
    i :| i < |names| && w + [c] <= names[i];
    assert names[i][..|w| + 1] == w + [c];
  }

  lemma NamesReadablePath(names: seq<Word>, w: Word, c: nat)
    requires NamesReadable(names)
    ensures PathReadable(Build(names), w, c)
  {
    if HasPath(Build(names), w + [c]) {
      var i := PathName(names, w, c);
      forall d: nat | c == DASH && d > DASH
        ensures !HasPath(Build(names), w + [d])
      {
        if HasPath(Build(names), w + [d]) {
          var j := PathName(names, w, d);
          assert false;
        }
      }
    }
  }

  predicate AreBytes(names: seq<Word>) {
    forall i, n :: 0 <= i < |names| && 0 <= n < |names[i]| ==> names[i][n] < 256
  }

  lemma {:induction false} InsertBytes(t: Trie, s: Word)
    requires Bytes(t) && forall n :: 0 <= n < |s| ==> s[n] < 256
    ensures Bytes(Insert(t, s))
    decreases |s|, 0, 0
  {
    if s != [] {
      PutBytes(t.children, s[0], s[1..]);
    }
  }

  lemma {:induction false} PutBytes(cs: seq<Child>, c: nat, rest: Word)
    requires AllBytes(cs) && c < 256 && forall n :: 0 <= n < |rest| ==> rest[n] < 256
    ensures AllBytes(Put(cs, c, rest))
    decreases |rest|, 1, |cs|
  {
    if cs == [] || c < cs[0].c {
      InsertBytes(EMPTY, rest);
    } else if cs[0].c == c {
      InsertBytes(cs[0].node, rest);
    } else {
      PutBytes(cs[1..], c, rest);
    }
  }

  lemma {:induction false} BuildBytes(names: seq<Word>)
    requires AreBytes(names)
    ensures Bytes(Build(names))
    decreases |names|
  {
    if names != [] {
      BuildBytes(names[..|names| - 1]);
      InsertBytes(Build(names[..|names| - 1]), names[|names| - 1]);
    }
  }

  /** Every class emitted for the names reads as the rule means it exactly if the names are readable. */
  lemma ClassesReadIffNames(names: seq<Word>, rest: string)
    requires AreBytes(names)
    ensures Bytes(Build(names)) && (ClassesRead(Build(names), rest) <==> NamesReadable(names))
  {
    var t := Build(names);
    BuildBytes(names);
    BuildKnows(names, []);
    ClassesReadWhen(t, rest);
    NamesDecidePaths(names, t);
    if Readable(t) {
      forall w: Word, c: nat
        ensures PathReadable(t, w, c)
      {
        ReadablePath(t, w, c);
      }
    }
    if forall w: Word, c: nat :: PathReadable(t, w, c) {
      PathsMakeReadable(t);
    }
  }

  lemma DashedTrie() returns (cs: seq<Child>)
    ensures |cs| == 2 && cs[0].c == DASH && cs[1].c == 97 && Build([[DASH, 120], [97, 120]]) == Node(cs, false)
  {
    var names: seq<Word> := [[DASH, 120], [97, 120]];
    var x, init := Insert(EMPTY, [120]), [[DASH, 120]];
    assert names[..1] == init && init[..0] == [];
    assert [DASH, 120][1..] == [120] && [97, 120][1..] == [120];
    assert Build([]) == EMPTY && Put([], DASH, [120]) == [Child(DASH, x)];
    assert Build(init) == Insert(EMPTY, [DASH, 120]) == Node([Child(DASH, x)], false);
    cs := [Child(DASH, x), Child(97, x)];
    assert Put([Child(DASH, x)], 97, [120]) == cs;
  }

  /** The names `-x` and `ax`: the dash makes a range from the quote to `a`, so a key that starts with `Z` is lost. */
  lemma DashedNamesMisread(rest: string)
    ensures var names := [[DASH, 120], [97, 120]];
      var cs := Build(names).children;
      && !NamesReadable(names) && AllBytes(cs) && RejectsText(cs) == "[^\"-a] char*"
      && Bracket("[^\"-a]" + rest) == (true, Some(([Span(QUOTE, 97)], rest)))
      && ClassMatches(true, [Single(QUOTE)] + Singles(cs), 90) && !ClassMatches(true, [Span(QUOTE, 97)], 90)
  {
    var names: seq<Word> := [[DASH, 120], [97, 120]];
    var cs := DashedTrie();
    assert !(names[0][..0] != names[1][..0] || names[0][0] != DASH || names[1][0] <= DASH);
    BuildBytes(names);
    assert Raw(cs) == "-a";
    RejectMatches(cs, 90);
    DashReads(rest);
    assert PartMatches([Span(QUOTE, 97)][0], 90);
  }

  lemma DashReads(rest: string)
    ensures Bracket("[^\"-a]" + rest) == (true, Some(([Span(QUOTE, 97)], rest)))
  {
    var s := "\"-a]" + rest;
    assert ("[^\"-a]" + rest)[2..] == s;
    assert s[1..] == "-a]" + rest && s[2..] == "a]" + rest && s[3..] == "]" + rest && s[4..] == rest;
    LiteralCharacter(s);
    LiteralCharacter(s[2..]);
    assert ClassPart(s) == Some((Span(QUOTE, 97), s[3..]));
    assert ClassParts(s[3..], [Span(QUOTE, 97)]) == Some(([Span(QUOTE, 97)], rest));
    assert [] + [Span(QUOTE, 97)] == [Span(QUOTE, 97)];
  }

  // ----- readable names: the whole text reads as the rule

  lemma ChildAtom(c: nat, rest: string, nested: bool)
    requires GoodByte(c)
    ensures var s := "[" + [c as char] + "]" + rest;
      At(s, 0) == '[' && Atom(s, nested) == Some((OneChar(c), SkipSpace(rest, nested)))
  {
    ChildReadsWhen(c, rest);
    assert "[" + [c as char] + "]" + rest == "[" + [c as char] + ("]" + rest);
  }

  lemma RejectsAtom(cs: seq<Child>, rest: string, nested: bool)
    requires AllBytes(cs) && cs != [] && NodeReadable(cs)
    ensures var s := "[^\"" + Raw(cs) + "]" + rest;
      At(s, 0) == '[' && Atom(s, nested) == Some((Rejects(cs).init.last, SkipSpace(rest, nested)))
  {
    RejectsReadWhen(cs, rest);
    assert "[^\"" + Raw(cs) + "]" + rest == "[^\"" + Raw(cs) + ("]" + rest);
  }

  /** After an atom, a blank and a repetition of `char`. */
  lemma CharReads(op: Repetition, rest: string, nested: bool, acc: Sequence)
    requires op.Plus? || op.Star?
    ensures var s := " char" + ShowOperator(op) + rest;
      ReadSequence(SkipSpace(s, nested), nested, acc) == ReadSequence(SkipSpace(rest, nested), nested, Snoc(acc, Repeat(Ref("char"), op)))
  {
    var item := Repeat(Ref("char"), op);
    var shown := ShowItem(item) + rest;
    assert ShowItem(item) == "char" + ShowOperator(op);
    assert " char" + ShowOperator(op) + rest == " " + shown;
    SkipOneBlank(shown, nested);
    OperatorStarts(op, rest);
    ReadShownItem(Ref("char"), ShowOperator(op) + rest, nested, acc);
    Assoc("char", ShowOperator(op), rest);
    var after := ShowOperator(op) + rest;
    ReadShownOperator(op, rest, nested);
    SkipNothing(after, nested);
    OperatorStep(after, nested, acc, Ref("char"), op, SkipSpace(rest, nested));
  }

  lemma OperatorStarts(op: Repetition, rest: string)
    requires op.Plus? || op.Star?
    ensures !IsWordChar(At(ShowOperator(op) + rest, 0))
  {
  }

  lemma SequenceEnds(s: string, nested: bool, acc: Sequence)
    requires At(s, 0) == '|' || At(s, 0) == ')' || At(s, 0) == '\n'
    ensures ReadSequence(s, nested, acc) == Some((acc, s))
  {
  }

  lemma AtomStep(s: string, nested: bool, acc: Sequence, item: Item, rest: string)
    requires At(s, 0) == '[' && Atom(s, nested) == Some((item, rest))
    ensures ReadSequence(s, nested, acc) == ReadSequence(rest, nested, Snoc(acc, item))
  {
  }

  lemma GroupStep(s: string, nested: bool, acc: Sequence, alts: Alternatives, rest: string)
    requires At(s, 0) == '(' && ReadAlternatives(SkipSpace(s[1..], true), true) == Some((alts, ")" + rest))
    ensures ReadSequence(s, nested, acc) == ReadSequence(SkipSpace(rest, nested), nested, Snoc(acc, Group(alts)))
  {
    assert (")" + rest)[1..] == rest;
  }

  lemma RejectsReads(cs: seq<Child>, rest: string)
    requires AllBytes(cs) && cs != [] && NodeReadable(cs) && EndsSequence(rest, true)
    ensures ReadSequence(RejectsText(cs) + rest, true, Empty) == Some((Rejects(cs), SkipSpace(rest, true)))
  {
    var s := RejectsText(cs) + rest;
    var tail := " char" + ShowOperator(Star) + rest;
    assert s == "[^\"" + Raw(cs) + "]" + tail;
    RejectsAtom(cs, tail, true);
    AtomStep(s, true, Empty, Rejects(cs).init.last, SkipSpace(tail, true));
    CharReads(Star, rest, true, Snoc(Empty, Rejects(cs).init.last));
    SequenceEnds(SkipSpace(rest, true), true, Rejects(cs));
  }

  lemma {:induction false} BranchReads(child: Child, rest: string)
    requires GoodByte(child.c) && Bytes(child.node) && Readable(child.node) && ProperChild(child) && EndsSequence(rest, true)
    ensures ReadSequence(BranchText(child) + rest, true, Empty) == Some((Branch(child), SkipSpace(rest, true)))
    decreases child, 1
  {
    if child.node.children != [] {
      VisitReads(child.node, ")" + rest);
      SkipNothing(")" + rest, true);
      GroupBranchReads(child, rest);
    } else {
      LeafBranchReads(child, rest);
    }
    SequenceEnds(SkipSpace(rest, true), true, Branch(child));
  }

  lemma LeafBranchReads(child: Child, rest: string)
    requires GoodByte(child.c) && child.node.children == [] && child.node.isEnd
    ensures ReadSequence(BranchText(child) + rest, true, Empty) == ReadSequence(SkipSpace(rest, true), true, Branch(child))
  {
    var s := BranchText(child) + rest;
    var tail := " char" + ShowOperator(Plus) + rest;
    assert s == "[" + [child.c as char] + "]" + tail;
    ChildAtom(child.c, tail, true);
    AtomStep(s, true, Empty, OneChar(child.c), SkipSpace(tail, true));
    CharReads(Plus, rest, true, Snoc(Empty, OneChar(child.c)));
  }

  lemma GroupBranchReads(child: Child, rest: string)
    requires GoodByte(child.c) && child.node.children != [] && Bytes(child.node)
    requires ReadAlternatives(VisitText(child.node) + (")" + rest), true) == MoreAlternatives(")" + rest, true, Visit(child.node))
    ensures ReadSequence(BranchText(child) + rest, true, Empty) == ReadSequence(SkipSpace(rest, true), true, Branch(child))
  {
    var inside := VisitText(child.node) + (")" + rest);
    var group := "(" + inside;
    GroupBranchText(child.c, VisitText(child.node), rest);
    ChildAtom(child.c, " " + group, true);
    SkipOneBlank(group, true);
    AtomStep(BranchText(child) + rest, true, Empty, OneChar(child.c), group);
    VisitStarts(child.node, ")" + rest);
    assert group[1..] == inside;
    SkipNothing(inside, true);
    GroupStep(group, true, Snoc(Empty, OneChar(child.c)), Visit(child.node), rest);
  }

  lemma GroupBranchText(c: nat, visit: string, rest: string)
    requires c < 256
    ensures "[" + [c as char] + "]" + (" (" + visit + ")") + rest == "[" + [c as char] + "]" + (" " + ("(" + (visit + (")" + rest))))
  {
    assert " (" == " " + "(";
  }

  lemma BranchesStart(cs: seq<Child>, rest: string)
    requires cs != [] && AllBytes(cs)
    ensures BranchesText(cs) != "" && At(BranchesText(cs) + rest, 0) == '['
    decreases |cs|
  {
    if |cs| > 1 {
      BranchesStart(cs[..|cs| - 1], rest);
    }
  }

  lemma VisitStarts(node: Trie, rest: string)
    requires node.children != [] && Bytes(node)
    ensures At(VisitText(node) + rest, 0) == '['
  {
    BranchesStart(node.children, rest);
  }

  /** One alternative more behind a bar. */
  lemma BarStep(next: string, s: Sequence, rest: string, acc: Alternatives)
    requires At(next, 0) == '[' && ReadSequence(next, true, Empty) == Some((s, rest))
    ensures var bar := " | " + next;
      EndsSequence(bar, true) &&
      MoreAlternatives(SkipSpace(bar, true), true, acc) == MoreAlternatives(rest, true, Or(acc, s))
  {
    BarBlank(next);
    SkipOneBlank("|" + (" " + next), true);
    BarReads(next, s, rest, acc);
  }

  lemma BarBlank(next: string)
    ensures " | " + next == " " + ("|" + (" " + next))
  {
    assert " | " == " " + ("|" + " ");
  }

  lemma BarReads(next: string, s: Sequence, rest: string, acc: Alternatives)
    requires At(next, 0) == '[' && ReadSequence(next, true, Empty) == Some((s, rest))
    ensures MoreAlternatives("|" + (" " + next), true, acc) == MoreAlternatives(rest, true, Or(acc, s))
  {
    var bar := "|" + (" " + next);
    assert bar[1..] == " " + next;
    SkipOneBlank(next, true);
  }

  lemma BarText(a: string, b: string, rest: string)
    ensures a + " | " + b + rest == a + (" | " + (b + rest))
  {
    Assoc(a + " | ", b, rest);
    Assoc(a, " | ", b + rest);
  }

  predicate AllGood(cs: seq<Child>) {
    forall i :: 0 <= i < |cs| ==> GoodByte(cs[i].c) && Readable(cs[i].node) && ProperChild(cs[i])
  }

  lemma ChildrenGood(node: Trie)
    requires Readable(node) && Proper(node)
    ensures AllGood(node.children)
  {
  }

  lemma {:induction false} BranchesRead(cs: seq<Child>, rest: string)
    requires cs != [] && AllBytes(cs) && EndsSequence(rest, true)
    requires AllGood(cs)
    ensures ReadAlternatives(BranchesText(cs) + rest, true) == MoreAlternatives(SkipSpace(rest, true), true, Branches(cs))
    decreases cs
  {
    var last := cs[|cs| - 1];
    BranchReads(last, rest);
    if |cs| > 1 {
      var init := cs[..|cs| - 1];
      var next := BranchText(last) + rest;
      BarStep(next, Branch(last), SkipSpace(rest, true), Branches(init));
      BarText(BranchesText(init), BranchText(last), rest);
      BranchesRead(init, " | " + next);
    }
  }

  lemma {:induction false} VisitReads(node: Trie, rest: string)
    requires node.children != [] && Bytes(node) && Readable(node) && Proper(node) && EndsSequence(rest, true)
    ensures ReadAlternatives(VisitText(node) + rest, true) == MoreAlternatives(SkipSpace(rest, true), true, Visit(node))
    decreases node, 0
  {
    var cs := node.children;
    var next := RejectsText(cs) + rest;
    RejectsReads(cs, rest);
    BarStep(next, Rejects(cs), SkipSpace(rest, true), Branches(cs));
    BarText(BranchesText(cs), RejectsText(cs), rest);
    ChildrenGood(node);
    BranchesRead(cs, " | " + next);
  }

  /** The text between the parentheses. */
  function ContentText(trie: Trie): string
    requires Bytes(trie)
  {
    if trie.children != [] then VisitText(trie) else ""
  }

  function ContentBody(trie: Trie): Alternatives {
    if trie.children != [] then Visit(trie) else Only(Empty)
  }

  lemma ContentReads(trie: Trie, rest: string)
    requires Bytes(trie) && Readable(trie) && Proper(trie)
    ensures ReadAlternatives(SkipSpace(" " + (ContentText(trie) + (" )" + rest)), true), true) ==
      Some((ContentBody(trie), ")" + rest))
  {
    var close := ")" + rest;
    assert " )" + rest == " " + close;
    SkipOneBlank(close, true);
    if trie.children != [] {
      BranchContentReads(trie, close);
    } else {
      assert "" + (" " + close) == " " + close;
      NoContentReads(close);
    }
  }

  lemma BranchContentReads(trie: Trie, close: string)
    requires trie.children != [] && Bytes(trie) && Readable(trie) && Proper(trie)
    requires At(close, 0) == ')' && SkipSpace(" " + close, true) == close
    ensures ReadAlternatives(SkipSpace(" " + (VisitText(trie) + (" " + close)), true), true) == Some((Visit(trie), close))
  {
    var end := " " + close;
    VisitStarts(trie, end);
    SkipOneBlank(VisitText(trie) + end, true);
    VisitReads(trie, end);
  }

  lemma NoContentReads(close: string)
    requires At(close, 0) == ')' && SkipSpace(" " + close, true) == close
    ensures ReadAlternatives(SkipSpace(" " + (" " + close), true), true) == Some((Only(Empty), close))
  {
    BlankBefore(" " + close, true);
    SequenceEnds(close, true, Empty);
  }

  /** `?` or nothing behind the group. */
  lemma MaybeReads(optional: bool, group: Item, rest: string, acc: Sequence)
    requires group.Group? && At(rest, 0) == '['
    ensures var s := (if optional then "?" else "") + (" " + rest);
      ReadSequence(SkipSpace(s, false), false, Snoc(acc, group)) ==
      ReadSequence(rest, false, Snoc(acc, if optional then Repeat(group, Maybe) else group))
  {
    SkipOneBlank(rest, false);
    if optional {
      var s := "?" + (" " + rest);
      assert s[1..] == " " + rest;
      assert Operator(s, false) == Some((Maybe, rest));
      SkipNothing(s, false);
      OperatorStep(s, false, acc, group, Maybe, rest);
    } else {
      assert "" + (" " + rest) == " " + rest;
    }
  }

  lemma SpaceReads(acc: Sequence)
    ensures ReadSequence(SkipSpace(" space\n", false), false, acc) == Some((Snoc(acc, Ref("space")), "\n"))
  {
    assert " space\n" == " " + ("space" + "\n");
    SkipOneBlank("space" + "\n", false);
    ReadShownItem(Ref("space"), "\n", false, acc);
    SkipNothing("\n", false);
    SequenceEnds("\n", false, Snoc(acc, Ref("space")));
  }

  function Tail(optional: bool): string {
    (if optional then "?" else "") + (" " + ("[\"]" + " space\n"))
  }

  lemma WholeText(trie: Trie)
    requires Bytes(trie)
    ensures NotStringsText(trie) + "\n" ==
      "[\"]" + (" " + ("(" + (" " + (ContentText(trie) + (" )" + Tail(!trie.isEnd))))))
  {
    OpenText(ContentText(trie) + (" )" + Tail(!trie.isEnd)));
    CloseText(ContentText(trie), if trie.isEnd then "" else "?");
  }

  lemma OpenText(rest: string)
    ensures "[\"] ( " + rest == "[\"]" + (" " + ("(" + (" " + rest)))
  {
    assert "[\"] ( " == "[\"]" + (" " + ("(" + " "));
  }

  lemma CloseText(v: string, q: string)
    ensures "[\"] ( " + v + " )" + q + " [\"] space" + "\n" == "[\"] ( " + (v + (" )" + (q + (" " + ("[\"]" + " space\n")))))
  {
    assert " " + ("[\"]" + " space\n") == " [\"] space" + "\n";
    Assoc("[\"] ( " + v + " )" + q, " [\"] space", "\n");
    Assoc("[\"] ( " + v + " )", q, " [\"] space" + "\n");
    Assoc("[\"] ( " + v, " )", q + (" [\"] space" + "\n"));
    Assoc("[\"] ( ", v, " )" + (q + (" [\"] space" + "\n")));
  }

  lemma QuoteAtom(rest: string, acc: Sequence)
    ensures var s := "[\"]" + rest;
      At(s, 0) == '[' && ReadSequence(s, false, acc) == ReadSequence(SkipSpace(rest, false), false, Snoc(acc, OneChar(QUOTE)))
  {
    assert "[" + [QUOTE as char] + "]" == "[\"]";
    ChildAtom(QUOTE, rest, false);
    AtomStep("[\"]" + rest, false, acc, OneChar(QUOTE), SkipSpace(rest, false));
  }

  /** The group between the quotes. */
  lemma GroupReads(trie: Trie, optional: bool, acc: Sequence)
    requires Bytes(trie) && Readable(trie) && Proper(trie)
    ensures var group := "(" + (" " + (ContentText(trie) + (" )" + Tail(optional))));
      var item := Group(ContentBody(trie));
      ReadSequence(group, false, acc) ==
      ReadSequence("[\"]" + " space\n", false, Snoc(acc, if optional then Repeat(item, Maybe) else item))
  {
    var tail := Tail(optional);
    var inside := " " + (ContentText(trie) + (" )" + tail));
    var group := "(" + inside;
    ContentReads(trie, tail);
    assert group[1..] == inside && group[0] == '(';
    GroupStep(group, false, acc, ContentBody(trie), tail);
    MaybeReads(optional, Group(ContentBody(trie)), "[\"]" + " space\n", acc);
  }

  lemma EndReads(acc: Sequence)
    ensures ReadSequence("[\"]" + " space\n", false, acc) == Some((Snoc(Snoc(acc, OneChar(QUOTE)), Ref("space")), "\n"))
  {
    QuoteAtom(" space\n", acc);
    SpaceReads(Snoc(acc, OneChar(QUOTE)));
  }

  /** The body of the rule reads back. */
  lemma BodyReads(names: seq<Word>, trie: Trie)
    requires trie == Build(names) && Bytes(trie) && Readable(trie) && Proper(trie)
    ensures ReadAlternatives(NotStringsText(trie) + "\n", false) == Some((Only(NotStrings(names)), "\n"))
    ensures At(NotStringsText(trie) + "\n", 0) == '['
  {
    var optional := !trie.isEnd;
    var group := "(" + (" " + (ContentText(trie) + (" )" + Tail(optional))));
    var open := Snoc(Empty, OneChar(QUOTE));
    WholeText(trie);
    QuoteAtom(" " + group, Empty);
    SkipOneBlank(group, false);
    GroupReads(trie, optional, open);
    EndReads(Snoc(open, Content(trie)));
    assert NotStrings(names) == Snoc(Snoc(Snoc(open, Content(trie)), OneChar(QUOTE)), Ref("space"));
    assert MoreAlternatives("\n", false, Only(NotStrings(names))) == Some((Only(NotStrings(names)), "\n"));
  }

  lemma OneLineReads(name: string, body: string, alts: Alternatives)
    requires PrintableName(name) && SkipSpace(body, true) == body && ReadAlternatives(body, false) == Some((alts, "\n"))
    ensures Read(name + (" ::= " + body)) == Some([Rule(name, alts)])
  {
    var sign := "::= " + body;
    var text := name + (" " + sign);
    assert " ::= " + body == " " + sign;
    NameLength(name, " " + sign);
    SkipOneBlank(sign, false);
    RuleStep(name, " " + sign, body, alts, "\n");
    OnlyRule(text, Rule(name, alts));
  }

  lemma OnlyRule(text: string, rule: Rule)
    requires IsWordChar(At(text, 0)) && ReadRule(text) == Some((rule, SkipSpace("\n"[1..], true)))
    ensures Read(text) == Some([rule])
  {
    assert "\n"[1..] == "" && [] + [rule] == [rule];
    SkipNothing(text, true);
    ReadRulesStep(text, [], rule, "");
  }

  /** For readable names the emitted text reads back as the rule. */
  lemma NotStringsReadsBack(name: string, names: seq<Word>)
    requires PrintableName(name) && AreBytes(names) && NamesReadable(names)
    ensures Bytes(Build(names))
    ensures Read(name + (" ::= " + (NotStringsText(Build(names)) + "\n"))) == Some([Rule(name, Only(NotStrings(names)))])
  {
    var trie := Build(names);
    ClassesReadIffNames(names, "");
    ClassesReadWhen(trie, "");
    BuildKnows(names, []);
    BodyReads(names, trie);
    SkipNothing(NotStringsText(trie) + "\n", true);
    OneLineReads(name, NotStringsText(trie) + "\n", Only(NotStrings(names)));
  }

  // ----- writing the text

  method EmitVisit(start: string, node: Trie) returns (out: string)
    requires Bytes(node)
    ensures out == start + ContentText(node)
    decreases node, 0
  {
    var rejects;
    out, rejects := EmitBranches(start, node.children);
    if node.children != [] {
      VisitOut(start, BranchesText(node.children), RejectsText(node.children));
      out := out + " | " + ("[^\"" + rejects + "] char*");
    }
  }

  lemma VisitOut(start: string, branches: string, rejects: string)
    ensures start + branches + " | " + rejects == start + (branches + " | " + rejects)
  {
    Assoc(start + branches, " | ", rejects);
    Assoc(start, branches, " | " + rejects);
    Assoc(branches, " | ", rejects);
  }

  method EmitBranches(start: string, cs: seq<Child>) returns (out: string, rejects: string)
    requires AllBytes(cs)
    ensures out == start + SomeBranches(cs) && rejects == Raw(cs)
    decreases cs
  {
    out, rejects := start, "";
    for i := 0 to |cs|
      invariant AllBytes(cs[..i]) && rejects == Raw(cs[..i])
      invariant out == start + SomeBranches(cs[..i])
    {
      RawSnoc(cs, i);
      BranchesSnoc(cs, i);
      MoreOut(start, SomeBranches(cs[..i]), if i == 0 then "" else " | ", BranchText(cs[i]));
      rejects := rejects + [cs[i].c as char];
      if i > 0 {
        out := out + " | ";
      }
      out := EmitBranch(out, cs[i]);
    }
    assert cs[..|cs|] == cs;
  }

  function SomeBranches(cs: seq<Child>): string
    requires AllBytes(cs)
  {
    if cs == [] then "" else BranchesText(cs)
  }

  method EmitBranch(start: string, child: Child) returns (out: string)
    requires child.c < 256 && Bytes(child.node)
    ensures out == start + BranchText(child)
    decreases child, 1
  {
    out := start + "[" + [child.c as char] + "]";
    if child.node.children != [] {
      out := out + " (";
      out := EmitVisit(out, child.node);
      out := out + ")";
    } else if child.node.isEnd {
      out := out + " char+";
    }
  }

  lemma RawSnoc(cs: seq<Child>, i: nat)
    requires AllBytes(cs) && i < |cs|
    ensures AllBytes(cs[..i + 1]) && AllBytes(cs[..i]) && Raw(cs[..i + 1]) == Raw(cs[..i]) + [cs[i].c as char]
  {
    var shorter, longer := Raw(cs[..i]), Raw(cs[..i + 1]);
    forall j | 0 <= j < |longer|
      ensures longer[j] == (shorter + [cs[i].c as char])[j]
    {
      assert longer[j] as int == cs[j].c;
    }
  }

  lemma BranchesSnoc(cs: seq<Child>, i: nat)
    requires AllBytes(cs) && i < |cs|
    ensures AllBytes(cs[..i + 1]) && AllBytes(cs[..i])
    ensures SomeBranches(cs[..i + 1]) == SomeBranches(cs[..i]) + (if i == 0 then "" else " | ") + BranchText(cs[i])
  {
    var longer := cs[..i + 1];
    assert longer[..i] == cs[..i] && longer[i] == cs[i];
    if i == 0 {
      assert SomeBranches(longer) == BranchText(cs[0]);
    } else {
      assert SomeBranches(longer) == BranchesText(longer[..i]) + " | " + BranchText(longer[i]);
    }
  }

  lemma MoreOut(start: string, a: string, bar: string, b: string)
    ensures start + (a + bar + b) == start + a + bar + b
  {
    Assoc(start, a + bar, b);
    Assoc(start, a, bar);
  }

  method EmitNotStrings(names: seq<Word>) returns (out: string)
    requires AreBytes(names)
    ensures Bytes(Build(names)) && out == NotStringsText(Build(names))
  {
    BuildBytes(names);
    var trie := BuildTrie(names);
    out := "[\"] ( ";
    out := EmitVisit(out, trie);
    out := out + " )";
    if !trie.isEnd {
      out := out + "?";
    }
    out := out + " [\"] space";
  }
}
