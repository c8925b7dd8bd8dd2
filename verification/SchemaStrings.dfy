/** The rule for the keys of additional properties: any JSON string but the given ones. */
module SchemaStrings {
  import opened Wrappers
  import opened Languages
  import opened GbnfSyntax
  import opened GbnfMeaning
  import opened GbnfLanguages

  // ----- the trie

  /** Children are kept in the order of their characters. */
  datatype Trie = Node(children: seq<Child>, isEnd: bool)

  datatype Child = Child(c: nat, node: Trie)

  const EMPTY: Trie := Node([], false)

  function Insert(t: Trie, s: Word): Trie
    decreases |s|, 0, 0
  {
    if s == [] then Node(t.children, true) else Node(Put(t.children, s[0], s[1..]), t.isEnd)
  }

  function Put(cs: seq<Child>, c: nat, rest: Word): (r: seq<Child>)
    ensures r != []
    decreases |rest|, 1, |cs|
  {
    if cs == [] || c < cs[0].c then [Child(c, Insert(EMPTY, rest))] + cs
    else if cs[0].c == c then [Child(c, Insert(cs[0].node, rest))] + cs[1..]
    else [cs[0]] + Put(cs[1..], c, rest)
  }

  function Build(strings: seq<Word>): Trie {
    if strings == [] then EMPTY else Insert(Build(strings[..|strings| - 1]), strings[|strings| - 1])
  }

  method BuildTrie(strings: seq<Word>) returns (trie: Trie)
    ensures trie == Build(strings)
  {
    trie := EMPTY;
    for i := 0 to |strings|
      invariant trie == Build(strings[..i])
    {
      assert strings[..i + 1][..i] == strings[..i];
      trie := Insert(trie, strings[i]);
    }
    assert strings[..|strings|] == strings;
  }

  /** The child for a character. */
  function Lookup(cs: seq<Child>, c: nat): (r: Option<Trie>)
    ensures r.Some? ==> exists i :: 0 <= i < |cs| && cs[i] == Child(c, r.value)
    ensures r.None? ==> forall i :: 0 <= i < |cs| ==> cs[i].c != c
  {
    if cs == [] then None
    else if cs[0].c == c then
      assert cs[0] == Child(c, cs[0].node);
      Some(cs[0].node)
    else
      var r := Lookup(cs[1..], c);
      assert r.Some? ==> exists i :: 0 <= i < |cs[1..]| && cs[1..][i] == Child(c, r.value);
      assert forall i :: 1 <= i < |cs| ==> cs[i] == cs[1..][i - 1];
      r
  }

  /** The node a word leads to. */
  function Follow(t: Trie, w: Word): Option<Trie>
    decreases |w|
  {
    if w == [] then Some(t)
    else
      var child :- Lookup(t.children, w[0]);
      Follow(child, w[1..])
  }

  predicate HasPath(t: Trie, w: Word) {
    Follow(t, w).Some?
  }

  predicate Ends(t: Trie, w: Word) {
    Follow(t, w).Some? && Follow(t, w).value.isEnd
  }

  predicate Sorted(cs: seq<Child>) {
    forall i, j :: 0 <= i < j < |cs| ==> cs[i].c < cs[j].c
  }

  lemma {:induction false} PutLooksUp(cs: seq<Child>, c: nat, rest: Word, d: nat)
    requires Sorted(cs)
    ensures Lookup(Put(cs, c, rest), d) ==
      if d == c then Some(Insert(if Lookup(cs, c).Some? then Lookup(cs, c).value else EMPTY, rest)) else Lookup(cs, d)
    decreases |cs|
  {
    if cs == [] || c < cs[0].c {
      assert ([Child(c, Insert(EMPTY, rest))] + cs)[1..] == cs;
    } else if cs[0].c == c {
      assert ([Child(c, Insert(cs[0].node, rest))] + cs[1..])[1..] == cs[1..];
    } else {
      PutLooksUp(cs[1..], c, rest, d);
      assert ([cs[0]] + Put(cs[1..], c, rest))[1..] == Put(cs[1..], c, rest);
    }
  }

  lemma {:induction false} PutSorted(cs: seq<Child>, c: nat, rest: Word)
    requires Sorted(cs)
    ensures Sorted(Put(cs, c, rest))
    ensures forall i :: 0 <= i < |Put(cs, c, rest)| ==> Put(cs, c, rest)[i].c == c || exists j :: 0 <= j < |cs| && cs[j] == Put(cs, c, rest)[i]
    decreases |cs|
  {
    if cs != [] && c > cs[0].c {
      PutSorted(cs[1..], c, rest);
      var p := Put(cs[1..], c, rest);
      forall i | 0 <= i < |p|
        ensures p[i].c > cs[0].c && (p[i].c == c || exists j :: 0 <= j < |cs| && cs[j] == p[i])
      {
        if p[i].c != c {
          var j :| 0 <= j < |cs[1..]| && cs[1..][j] == p[i];
          assert cs[j + 1] == p[i];
        }
      }
      ConsSorted(cs, c, p);
    } else {
      assert forall j :: 1 <= j < |cs| ==> cs[j] == cs[1..][j - 1];
    }
  }

  lemma ConsSorted(cs: seq<Child>, c: nat, p: seq<Child>)
    requires cs != [] && Sorted(p)
    requires forall i :: 0 <= i < |p| ==> p[i].c > cs[0].c && (p[i].c == c || exists j :: 0 <= j < |cs| && cs[j] == p[i])
    ensures Sorted([cs[0]] + p)
    ensures forall i :: 0 <= i < |[cs[0]] + p| ==>
      ([cs[0]] + p)[i].c == c || exists j :: 0 <= j < |cs| && cs[j] == ([cs[0]] + p)[i]
  {
    var all := [cs[0]] + p;
    forall i | 0 <= i < |all|
      ensures all[i].c == c || exists j :: 0 <= j < |cs| && cs[j] == all[i]
    {
      assert i > 0 ==> all[i] == p[i - 1];
    }
  }

  /** Sorted at every node, and every node without children is the end of a string. */
  predicate Proper(t: Trie)
    decreases t
  {
    && Sorted(t.children)
    && forall i :: 0 <= i < |t.children| ==>
         Proper(t.children[i].node) && (t.children[i].node.children == [] ==> t.children[i].node.isEnd)
  }

  lemma {:induction false} InsertProper(t: Trie, s: Word)
    requires Proper(t)
    ensures Proper(Insert(t, s)) && (Insert(t, s).children == [] ==> Insert(t, s).isEnd)
    decreases |s|, 0, 0
  {
    if s != [] {
      PutProper(t.children, s[0], s[1..]);
      PutSorted(t.children, s[0], s[1..]);
    }
  }

  predicate ProperChild(child: Child) {
    Proper(child.node) && (child.node.children == [] ==> child.node.isEnd)
  }

  lemma {:induction false} PutProper(cs: seq<Child>, c: nat, rest: Word)
    requires forall i :: 0 <= i < |cs| ==> ProperChild(cs[i])
    ensures forall i :: 0 <= i < |Put(cs, c, rest)| ==> ProperChild(Put(cs, c, rest)[i])
    decreases |rest|, 1, |cs|
  {
    if cs == [] || c < cs[0].c {
      InsertProper(EMPTY, rest);
    } else if cs[0].c == c {
      assert ProperChild(cs[0]);
      InsertProper(cs[0].node, rest);
    } else {
      PutProper(cs[1..], c, rest);
    }
  }

  lemma {:induction false} InsertFollows(t: Trie, s: Word, w: Word)
    requires Proper(t)
    ensures HasPath(Insert(t, s), w) <==> HasPath(t, w) || w <= s
    ensures Ends(Insert(t, s), w) <==> Ends(t, w) || w == s
    decreases |s|
  {
    if s != [] && w != [] {
      PutLooksUp(t.children, s[0], s[1..], w[0]);
      if w[0] == s[0] {
        var known := Lookup(t.children, s[0]);
        assert w == [w[0]] + w[1..] && s == [s[0]] + s[1..];
        if known.Some? {
          InsertFollows(known.value, s[1..], w[1..]);
        } else {
          InsertFollows(EMPTY, s[1..], w[1..]);
          NoPathInEmpty(w[1..]);
        }
      }
    }
  }

  lemma NoPathInEmpty(w: Word)
    ensures HasPath(EMPTY, w) <==> w == []
    ensures !Ends(EMPTY, w)
  {
  }

  ghost predicate IsPrefixOfOne(strings: seq<Word>, w: Word) {
    exists i :: 0 <= i < |strings| && w <= strings[i]
  }

  /** The trie knows exactly the prefixes of the strings, and where the strings end. */
  lemma {:induction false} BuildKnows(strings: seq<Word>, w: Word)
    ensures Proper(Build(strings))
    ensures HasPath(Build(strings), w) <==> w == [] || IsPrefixOfOne(strings, w)
    ensures Ends(Build(strings), w) <==> w in strings
    decreases |strings|
  {
    if strings == [] {
      NoPathInEmpty(w);
    } else {
      var init, last := strings[..|strings| - 1], strings[|strings| - 1];
      BuildKnows(init, w);
      InsertFollows(Build(init), last, w);
      InsertProper(Build(init), last);
      assert strings == init + [last];
      PrefixSnoc(init, last, w);
    }
  }

  lemma PrefixSnoc(init: seq<Word>, last: Word, w: Word)
    ensures IsPrefixOfOne(init + [last], w) <==> IsPrefixOfOne(init, w) || w <= last
  {
    var all := init + [last];
    if IsPrefixOfOne(init, w) {
      var i :| 0 <= i < |init| && w <= init[i];
      assert all[i] == init[i];
    }
    if w <= last {
      assert all[|init|] == last;
    }
    if IsPrefixOfOne(all, w) {
      var i :| 0 <= i < |all| && w <= all[i];
      assert i < |init| ==> all[i] == init[i];
    }
  }

  // ----- the rule

  const QUOTE: nat := 34

  function OneChar(c: nat): Item {
    CharClass(false, [Single(c)])
  }

  function Singles(cs: seq<Child>): seq<Part> {
    if cs == [] then [] else [Single(cs[0].c)] + Singles(cs[1..])
  }

  /** What follows the character of a child: its own branches, or, below a leaf, at least one more character. */
  function Branch(child: Child): Sequence
    decreases child, 1
  {
    var first := Snoc(Empty, OneChar(child.c));
    if child.node.children != [] then Snoc(first, Group(Visit(child.node)))
    else if child.node.isEnd then Snoc(first, Repeat(Ref("char"), Plus))
    else first
  }

  function Branches(cs: seq<Child>): Alternatives
    requires cs != []
    decreases cs
  {
    if |cs| == 1 then Only(Branch(cs[0])) else Or(Branches(cs[..|cs| - 1]), Branch(cs[|cs| - 1]))
  }

  /** A character that leads nowhere, then anything. */
  function Rejects(cs: seq<Child>): Sequence {
    Snoc(Snoc(Empty, CharClass(true, [Single(QUOTE)] + Singles(cs))), Repeat(Ref("char"), Star))
  }

  function Visit(node: Trie): Alternatives
    requires node.children != []
    decreases node, 0
  {
    Or(Branches(node.children), Rejects(node.children))
  }

  /** Between the quotes. */
  function Content(trie: Trie): Item {
    var inner := Group(if trie.children != [] then Visit(trie) else Only(Empty));
    if trie.isEnd then inner else Repeat(inner, Maybe)
  }

  /** `["] ( ... )? ["] space` */
  function NotStrings(strings: seq<Word>): Sequence {
    Snoc(Snoc(Snoc(Snoc(Empty, OneChar(QUOTE)), Content(Build(strings))), OneChar(QUOTE)), Ref("space"))
  }

  // ----- its language

  /** The words of the branches of a node, given the language of `char`. */
  ghost predicate Accepts(g: Rules, node: Trie, w: Word)
    decreases |w|
  {
    && w != []
    && match Lookup(node.children, w[0])
       case Some(child) =>
         if child.children != [] then Accepts(g, child, w[1..]) else w[1..] in OfItem(g, Repeat(Ref("char"), Plus))
       case None => w[0] != QUOTE && w[1..] in OfItem(g, Repeat(Ref("char"), Star))
  }

  lemma OneCharLanguage(g: Rules, c: nat, w: Word)
    ensures w in OfItem(g, OneChar(c)) <==> w == [c]
  {
    if w == [c] {
      assert PartMatches([Single(c)][0], w[0]);
      assert ItemMatches(g, 0, OneChar(c), w);
    }
    if w in OfItem(g, OneChar(c)) {
      assert InItem(g, OneChar(c), w);
      var d: nat :| ItemMatches(g, d, OneChar(c), w);
      assert AnyPartMatches([Single(c)], w[0]);
    }
  }

  lemma {:induction false} SinglesMatch(cs: seq<Child>, c: nat)
    ensures AnyPartMatches(Singles(cs), c) <==> Lookup(cs, c).Some?
    decreases |cs|
  {
    if cs != [] {
      SinglesMatch(cs[1..], c);
      var parts, rest := Singles(cs), Singles(cs[1..]);
      assert parts[0] == Single(cs[0].c) && forall i :: 1 <= i < |parts| ==> parts[i] == rest[i - 1];
      assert forall i :: 0 <= i < |rest| ==> rest[i] == parts[i + 1];
    }
  }

  lemma RejectMatches(cs: seq<Child>, c: nat)
    ensures ClassMatches(true, [Single(QUOTE)] + Singles(cs), c) <==> c != QUOTE && Lookup(cs, c).None?
  {
    SinglesMatch(cs, c);
    var parts, rest := [Single(QUOTE)] + Singles(cs), Singles(cs);
    assert parts[0] == Single(QUOTE) && forall i :: 1 <= i < |parts| ==> parts[i] == rest[i - 1];
    assert forall i :: 0 <= i < |rest| ==> rest[i] == parts[i + 1];
  }

  /** A word that starts with a character of the class, then a word of the item. */
  lemma ClassThen(g: Rules, class_: Item, item: Item, w: Word)
    requires class_.CharClass? && class_.parts != []
    ensures w in OfSequence(g, Snoc(Snoc(Empty, class_), item)) <==>
      w != [] && ClassMatches(class_.negated, class_.parts, w[0]) && w[1..] in OfItem(g, item)
  {
    SnocLanguage(g, Snoc(Empty, class_), item);
    OneLanguage(g, class_);
    if w in OfSequence(g, Snoc(Snoc(Empty, class_), item)) {
      var i: nat :| SplitsAt(OfItem(g, class_), OfItem(g, item), w, i);
      assert InItem(g, class_, w[..i]);
      var d: nat :| ItemMatches(g, d, class_, w[..i]);
      assert |w[..i]| == 1 && w[..i][0] == w[0];
    }
    if w != [] && ClassMatches(class_.negated, class_.parts, w[0]) && w[1..] in OfItem(g, item) {
      assert ItemMatches(g, 0, class_, w[..1]);
      assert InItem(g, class_, w[..1]);
      assert SplitsAt(OfItem(g, class_), OfItem(g, item), w, 1);
    }
  }

  lemma RejectsLanguage(g: Rules, cs: seq<Child>, w: Word)
    ensures w in OfSequence(g, Rejects(cs)) <==>
      w != [] && w[0] != QUOTE && Lookup(cs, w[0]).None? && w[1..] in OfItem(g, Repeat(Ref("char"), Star))
  {
    ClassThen(g, CharClass(true, [Single(QUOTE)] + Singles(cs)), Repeat(Ref("char"), Star), w);
    if w != [] {
      RejectMatches(cs, w[0]);
    }
  }

  ghost predicate InBranch(g: Rules, child: Child, w: Word)
  {
    && w != [] && w[0] == child.c
    && if child.node.children != [] then Accepts(g, child.node, w[1..]) else w[1..] in OfItem(g, Repeat(Ref("char"), Plus))
  }

  lemma OnlyOneChar(c: nat, d: nat)
    ensures ClassMatches(false, [Single(c)], d) <==> d == c
  {
    if d == c {
      assert PartMatches([Single(c)][0], d);
    }
  }

  lemma {:induction false} BranchLanguage(g: Rules, child: Child, w: Word)
    requires ProperChild(child)
    ensures w in OfSequence(g, Branch(child)) <==> InBranch(g, child, w)
    decreases child, 1
  {
    var item := if child.node.children != [] then Group(Visit(child.node)) else Repeat(Ref("char"), Plus);
    ClassThen(g, OneChar(child.c), item, w);
    if w != [] {
      OnlyOneChar(child.c, w[0]);
      if child.node.children != [] {
        GroupLanguage(g, Visit(child.node));
        VisitLanguage(g, child.node, w[1..]);
      }
    }
  }

  ghost predicate InBranches(g: Rules, cs: seq<Child>, w: Word) {
    exists i :: 0 <= i < |cs| && InBranch(g, cs[i], w)
  }

  lemma {:induction false} BranchesLanguage(g: Rules, cs: seq<Child>, w: Word)
    requires cs != [] && forall i :: 0 <= i < |cs| ==> ProperChild(cs[i])
    ensures w in OfAlternatives(g, Branches(cs)) <==> InBranches(g, cs, w)
    decreases cs
  {
    var init, last := cs[..|cs| - 1], cs[|cs| - 1];
    BranchLanguage(g, last, w);
    if |cs| == 1 {
      OnlyLanguage(g, Branch(cs[0]));
      assert last == cs[0];
    } else {
      OrLanguage(g, Branches(init), Branch(last));
      BranchesLanguage(g, init, w);
      assert forall i :: 0 <= i < |init| ==> init[i] == cs[i];
    }
  }

  lemma BranchesLookUp(g: Rules, cs: seq<Child>, w: Word)
    requires Sorted(cs)
    ensures InBranches(g, cs, w) <==> w != [] && Lookup(cs, w[0]).Some? && InBranch(g, Child(w[0], Lookup(cs, w[0]).value), w)
  {
    if InBranches(g, cs, w) {
      var i :| 0 <= i < |cs| && InBranch(g, cs[i], w);
      assert cs[i].c == w[0];
      assert Lookup(cs, w[0]).Some?;
      var j :| 0 <= j < |cs| && cs[j] == Child(w[0], Lookup(cs, w[0]).value);
      assert i == j;
    }
    if w != [] && Lookup(cs, w[0]).Some? && InBranch(g, Child(w[0], Lookup(cs, w[0]).value), w) {
      var j :| 0 <= j < |cs| && cs[j] == Child(w[0], Lookup(cs, w[0]).value);
      assert InBranch(g, cs[j], w);
    }
  }

  lemma {:induction false} VisitLanguage(g: Rules, node: Trie, w: Word)
    requires Proper(node) && node.children != []
    ensures w in OfAlternatives(g, Visit(node)) <==> Accepts(g, node, w)
    decreases node, 0
  {
    OrLanguage(g, Branches(node.children), Rejects(node.children));
    forall i | 0 <= i < |node.children|
      ensures ProperChild(node.children[i])
    {
    }
    BranchesLanguage(g, node.children, w);
    BranchesLookUp(g, node.children, w);
    RejectsLanguage(g, node.children, w);
  }

  // ----- which strings that is

  /** A character that JSON strings contain unescaped. */
  predicate Unescaped(c: nat) {
    c >= 32 && c != 127 && c != '"' as int && c != '\\' as int
  }

  predicate AllUnescaped(w: Word) {
    forall i :: 0 <= i < |w| ==> Unescaped(w[i])
  }

  /** The rule `char` accepts every single unescaped character. */
  ghost predicate CharRule(g: Rules) {
    forall c: nat :: Unescaped(c) ==> [c] in OfItem(g, Ref("char"))
  }

  lemma {:induction false} UnescapedRepeats(g: Rules, w: Word)
    requires CharRule(g) && AllUnescaped(w)
    ensures Power(OfItem(g, Ref("char")), |w|, w)
    decreases |w|
  {
    if w != [] {
      UnescapedRepeats(g, w[1..]);
      assert w[..1] == [w[0]];
      PowerCons(OfItem(g, Ref("char")), |w| - 1, w, 1);
    }
  }

  lemma UnescapedStarPlus(g: Rules, w: Word)
    requires CharRule(g) && AllUnescaped(w)
    ensures w in OfItem(g, Repeat(Ref("char"), Star))
    ensures w != [] ==> w in OfItem(g, Repeat(Ref("char"), Plus))
  {
    UnescapedRepeats(g, w);
    RepeatLanguage(g, Ref("char"), Star, w);
    RepeatLanguage(g, Ref("char"), Plus, w);
    assert CountAllowed(Star, |w|);
    assert w != [] ==> CountAllowed(Plus, |w|);
  }

  /** No word of `char` is empty. */
  ghost predicate CharNotEmpty(g: Rules) {
    [] !in OfItem(g, Ref("char"))
  }

  lemma EmptyNotInPower(lang: Lang, k: nat, w: Word)
    requires k > 0 && [] !in lang && w == []
    ensures !Power(lang, k, w)
  {
    assert forall i :: 0 <= i <= |w| ==> w[..i] == [];
  }

  lemma PlusNotEmpty(g: Rules)
    requires CharNotEmpty(g)
    ensures [] !in OfItem(g, Repeat(Ref("char"), Plus))
  {
    RepeatLanguage(g, Ref("char"), Plus, []);
    forall k: nat | CountAllowed(Plus, k)
      ensures !Power(OfItem(g, Ref("char")), k, [])
    {
      EmptyNotInPower(OfItem(g, Ref("char")), k, []);
    }
  }

  lemma FollowChild(t: Trie, w: Word)
    requires w != []
    ensures Follow(t, w) == if Lookup(t.children, w[0]).Some? then Follow(Lookup(t.children, w[0]).value, w[1..]) else None
  {
  }

  /** Nothing accepted by the branches of a node is a path from it. */
  lemma {:induction false} AcceptedLeavesTrie(g: Rules, node: Trie, w: Word)
    requires Proper(node) && node.children != [] && CharNotEmpty(g) && Accepts(g, node, w)
    ensures !HasPath(node, w)
    decreases |w|
  {
    var found := Lookup(node.children, w[0]);
    if found.Some? {
      var i :| 0 <= i < |node.children| && node.children[i] == Child(w[0], found.value);
      assert ProperChild(node.children[i]);
      FollowChild(node, w);
      if found.value.children != [] {
        AcceptedLeavesTrie(g, found.value, w[1..]);
      } else {
        PlusNotEmpty(g);
        assert w[1..] != [];
        FollowChild(found.value, w[1..]);
      }
    }
  }

  /** Among words of unescaped characters, everything else is accepted. */
  lemma {:induction false} OtherwiseAccepted(g: Rules, node: Trie, w: Word)
    requires Proper(node) && node.children != [] && CharRule(g) && AllUnescaped(w) && !HasPath(node, w)
    ensures Accepts(g, node, w)
    decreases |w|
  {
    assert w != [];
    assert AllUnescaped(w[1..]);
    UnescapedStarPlus(g, w[1..]);
    FollowChild(node, w);
    var found := Lookup(node.children, w[0]);
    if found.Some? {
      var i :| 0 <= i < |node.children| && node.children[i] == Child(w[0], found.value);
      assert ProperChild(node.children[i]);
      if found.value.children != [] {
        OtherwiseAccepted(g, found.value, w[1..]);
      }
    }
  }

  ghost predicate NoneNonEmpty(strings: seq<Word>) {
    forall i :: 0 <= i < |strings| ==> strings[i] == []
  }

  lemma {:induction false} RootHasChildren(strings: seq<Word>)
    ensures Build(strings).children == [] <==> NoneNonEmpty(strings)
    decreases |strings|
  {
    if strings != [] {
      RootHasChildren(strings[..|strings| - 1]);
      assert forall i :: 0 <= i < |strings| - 1 ==> strings[i] == strings[..|strings| - 1][i];
    }
  }

  lemma ContentLanguage(g: Rules, trie: Trie, w: Word)
    requires Proper(trie)
    ensures w in OfItem(g, Content(trie)) <==>
      (w == [] && !trie.isEnd) || (if trie.children != [] then Accepts(g, trie, w) else w == [])
  {
    var body := if trie.children != [] then Visit(trie) else Only(Empty);
    GroupLanguage(g, body);
    MaybeLanguage(g, Group(body));
    if trie.children != [] {
      VisitLanguage(g, trie, w);
    } else {
      OnlyLanguage(g, Empty);
      EmptyLanguage(g);
    }
  }

  /** What the rule lets through: the empty string unless excluded, and what is no prefix of an excluded string. */
  ghost predicate LeavesTrie(strings: seq<Word>, w: Word) {
    if w == [] then [] !in strings else !IsPrefixOfOne(strings, w)
  }

  /** With some non-empty string excluded, the accepted contents of unescaped characters are those that leave the trie,
      and no excluded string is accepted at all. */
  lemma ContentExact(g: Rules, strings: seq<Word>, w: Word)
    requires CharRule(g) && CharNotEmpty(g) && !NoneNonEmpty(strings)
    ensures AllUnescaped(w) ==> (w in OfItem(g, Content(Build(strings))) <==> LeavesTrie(strings, w))
    ensures w in OfItem(g, Content(Build(strings))) ==> LeavesTrie(strings, w) && w !in strings
  {
    var trie := Build(strings);
    BuildKnows(strings, w);
    RootHasChildren(strings);
    ContentLanguage(g, trie, w);
    assert Ends(trie, []) <==> trie.isEnd;
    BuildKnows(strings, []);
    if Accepts(g, trie, w) {
      AcceptedLeavesTrie(g, trie, w);
    }
    if AllUnescaped(w) && !HasPath(trie, w) {
      OtherwiseAccepted(g, trie, w);
    }
    if w in strings && w != [] {
      var i :| 0 <= i < |strings| && strings[i] == w;
      assert IsPrefixOfOne(strings, w);
    }
  }

  /** Excluding nothing but the empty string makes the rule accept the empty string and nothing else. */
  lemma OnlyEmptyExcluded(g: Rules, strings: seq<Word>, w: Word)
    requires NoneNonEmpty(strings)
    ensures w in OfItem(g, Content(Build(strings))) <==> w == []
  {
    BuildKnows(strings, w);
    RootHasChildren(strings);
    ContentLanguage(g, Build(strings), w);
  }

  // ----- the `char` rule itself

  function CharUnescaped(): Item {
    CharClass(true, [Single(QUOTE), Single(92), Single(127), Span(0, 31)])
  }

  function CharEscaped(): Sequence {
    Snoc(Snoc(Empty, OneChar(92)),
         Group(Or(Only(Snoc(Empty, CharClass(false, [Single(34), Single(92), Single(98), Single(102), Single(110), Single(114), Single(116)]))),
                  Snoc(Snoc(Empty, Literal([117])),
                       Repeat(CharClass(false, [Span(48, 57), Span(97, 102), Span(65, 70)]), Exactly(4))))))
  }

  /** The primitive rule satisfies what the theorem asks of it. */
  lemma PrimitiveCharRule(g: Rules)
    requires "char" in g && g["char"] == Or(Only(Snoc(Empty, CharUnescaped())), CharEscaped())
    ensures CharRule(g) && CharNotEmpty(g)
  {
    RefLanguage(g, "char");
    OrLanguage(g, Only(Snoc(Empty, CharUnescaped())), CharEscaped());
    OnlyLanguage(g, Snoc(Empty, CharUnescaped()));
    OneLanguage(g, CharUnescaped());
    forall c: nat | Unescaped(c)
      ensures [c] in OfItem(g, Ref("char"))
    {
      assert ItemMatches(g, 0, CharUnescaped(), [c]);
      assert InItem(g, CharUnescaped(), [c]);
    }
    ClassThen(g, OneChar(92), CharEscaped().last, []);
    assert !InItem(g, CharUnescaped(), []);
  }

  // ----- the whole rule, quotes and space included

  /** A quoted word, and what the rule `space` allows behind it. */
  ghost predicate IsQuoted(g: Rules, strings: seq<Word>, w: Word, v: Word, t: Word) {
    w == ['"' as int] + v + ['"' as int] + t && v in OfItem(g, Content(Build(strings))) && t in OfItem(g, Ref("space"))
  }

  lemma NotStringsLanguage(g: Rules, strings: seq<Word>, w: Word)
    ensures w in OfSequence(g, NotStrings(strings)) <==>
      exists v, t :: IsQuoted(g, strings, w, v, t)
  {
    if w in OfSequence(g, NotStrings(strings)) {
      var v, t := AcceptedQuoted(g, strings, w);
    }
    if exists v, t :: IsQuoted(g, strings, w, v, t) {
      var v, t :| IsQuoted(g, strings, w, v, t);
      QuotedAccepted(g, strings, w, v, t);
    }
  }

  lemma AcceptedQuoted(g: Rules, strings: seq<Word>, w: Word) returns (v: Word, t: Word)
    requires w in OfSequence(g, NotStrings(strings))
    ensures IsQuoted(g, strings, w, v, t)
  {
    var item := Content(Build(strings));
    var closed := Snoc(Snoc(Snoc(Empty, OneChar(QUOTE)), item), OneChar(QUOTE));
    SnocLanguage(g, closed, Ref("space"));
    assert NotStrings(strings) == Snoc(closed, Ref("space"));
    var i: nat :| SplitsAt(OfSequence(g, closed), OfItem(g, Ref("space")), w, i);
    v := ClosedSplits(g, item, w[..i]);
    t := w[i..];
  }

  lemma QuotedAccepted(g: Rules, strings: seq<Word>, w: Word, v: Word, t: Word)
    requires IsQuoted(g, strings, w, v, t)
    ensures w in OfSequence(g, NotStrings(strings))
  {
    var item := Content(Build(strings));
    var closed := Snoc(Snoc(Snoc(Empty, OneChar(QUOTE)), item), OneChar(QUOTE));
    ClosedJoins(g, item, v);
    var n := |v| + 2;
    assert w[..n] == [QUOTE] + v + [QUOTE] && w[n..] == t;
    assert SplitsAt(OfSequence(g, closed), OfItem(g, Ref("space")), w, n);
    SnocLanguage(g, closed, Ref("space"));
    assert NotStrings(strings) == Snoc(closed, Ref("space"));
  }

  lemma ClosedSplits(g: Rules, item: Item, w: Word) returns (v: Word)
    requires w in OfSequence(g, Snoc(Snoc(Snoc(Empty, OneChar(QUOTE)), item), OneChar(QUOTE)))
    ensures w == [QUOTE] + v + [QUOTE] && v in OfItem(g, item)
  {
    var open := Snoc(Empty, OneChar(QUOTE));
    SnocLanguage(g, Snoc(open, item), OneChar(QUOTE));
    SnocLanguage(g, open, item);
    OneLanguage(g, OneChar(QUOTE));
    var j: nat :| SplitsAt(OfSequence(g, Snoc(open, item)), OfItem(g, OneChar(QUOTE)), w, j);
    var i: nat :| SplitsAt(OfSequence(g, open), OfItem(g, item), w[..j], i);
    OneCharLanguage(g, QUOTE, w[j..]);
    OneCharLanguage(g, QUOTE, w[..j][..i]);
    v := w[..j][i..];
    assert w == w[..j][..i] + v + w[j..];
  }

  lemma ClosedJoins(g: Rules, item: Item, v: Word)
    requires v in OfItem(g, item)
    ensures [QUOTE] + v + [QUOTE] in OfSequence(g, Snoc(Snoc(Snoc(Empty, OneChar(QUOTE)), item), OneChar(QUOTE)))
  {
    var open := Snoc(Empty, OneChar(QUOTE));
    SnocLanguage(g, Snoc(open, item), OneChar(QUOTE));
    SnocLanguage(g, open, item);
    OneLanguage(g, OneChar(QUOTE));
    OneCharLanguage(g, QUOTE, [QUOTE]);
    var front := [QUOTE] + v;
    assert front[..1] == [QUOTE] && front[1..] == v;
    assert SplitsAt(OfSequence(g, open), OfItem(g, item), front, 1);
    var w := front + [QUOTE];
    assert w[..|front|] == front && w[|front|..] == [QUOTE];
    assert SplitsAt(OfSequence(g, Snoc(open, item)), OfItem(g, OneChar(QUOTE)), w, |front|);
  }

  /** No word of `space` has a quote in it. */
  ghost predicate SpaceRule(g: Rules) {
    forall t :: t in OfItem(g, Ref("space")) ==> QUOTE !in t
  }

  /** What follows the last quote. */
  function AfterQuotes(w: Word): Word {
    if w == [] || w[|w| - 1] == QUOTE then [] else AfterQuotes(w[..|w| - 1]) + [w[|w| - 1]]
  }

  lemma {:induction false} AfterTheQuote(v: Word, t: Word)
    requires QUOTE !in t
    ensures AfterQuotes(v + [QUOTE] + t) == t
    decreases |t|
  {
    var w := v + [QUOTE] + t;
    if t == [] {
      assert w[|w| - 1] == QUOTE;
    } else {
      var n := |t| - 1;
      assert t == t[..n] + [t[n]];
      assert w[|w| - 1] == t[n] && w[..|w| - 1] == v + [QUOTE] + t[..n];
      AfterTheQuote(v, t[..n]);
    }
  }

  lemma LastQuote(v: Word, t: Word, u: Word, s: Word)
    requires QUOTE !in t && QUOTE !in s && [QUOTE] + v + [QUOTE] + t == [QUOTE] + u + [QUOTE] + s
    ensures v == u && t == s
  {
    AfterTheQuote([QUOTE] + v, t);
    AfterTheQuote([QUOTE] + u, s);
    var w := [QUOTE] + v + [QUOTE] + t;
    assert |v| == |u|;
    assert w[1..|v| + 1] == v && w[1..|u| + 1] == u;
  }

  lemma QuotedIffContent(g: Rules, strings: seq<Word>, v: Word, t: Word)
    requires SpaceRule(g) && t in OfItem(g, Ref("space"))
    ensures [QUOTE] + v + [QUOTE] + t in OfSequence(g, NotStrings(strings)) <==> v in OfItem(g, Content(Build(strings)))
  {
    var w := [QUOTE] + v + [QUOTE] + t;
    NotStringsLanguage(g, strings, w);
    if v in OfItem(g, Content(Build(strings))) {
      assert IsQuoted(g, strings, w, v, t);
    }
    forall u, s | IsQuoted(g, strings, w, u, s)
      ensures u == v
    {
      LastQuote(v, t, u, s);
    }
  }

  /** With some non-empty string excluded, the strings of unescaped characters that the rule accepts are the empty one unless it is
      excluded and those that are no prefix of an excluded string; no excluded string is accepted as it is written. */
  lemma NotStringsExact(g: Rules, strings: seq<Word>, v: Word, t: Word)
    requires CharRule(g) && CharNotEmpty(g) && SpaceRule(g) && t in OfItem(g, Ref("space")) && !NoneNonEmpty(strings)
    ensures var accepted := [QUOTE] + v + [QUOTE] + t in OfSequence(g, NotStrings(strings));
      && (AllUnescaped(v) ==> (accepted <==> LeavesTrie(strings, v)))
      && (accepted ==> LeavesTrie(strings, v) && v !in strings)
  {
    QuotedIffContent(g, strings, v, t);
    ContentExact(g, strings, v);
  }

  // ----- what was promised: every string that is none of the excluded ones

  ghost predicate KeepsPromise(g: Rules, strings: seq<Word>) {
    forall v: Word, t: Word :: AllUnescaped(v) && t in OfItem(g, Ref("space")) ==>
      ([QUOTE] + v + [QUOTE] + t in OfSequence(g, NotStrings(strings)) <==> v !in strings)
  }

  /** Every non-empty proper prefix of an excluded string is itself excluded, if it has only unescaped characters. */
  predicate PrefixesExcluded(strings: seq<Word>) {
    forall i, n :: 0 <= i < |strings| && 0 < n < |strings[i]| && AllUnescaped(strings[i][..n]) ==> strings[i][..n] in strings
  }

  lemma PrefixesDecide(strings: seq<Word>, v: Word)
    requires PrefixesExcluded(strings) && AllUnescaped(v)
    ensures LeavesTrie(strings, v) <==> v !in strings
  {
    if v != [] && IsPrefixOfOne(strings, v) {
      var i :| 0 <= i < |strings| && v <= strings[i];
      assert strings[i][..|v|] == v;
      assert |v| == |strings[i]| ==> v == strings[i];
    }
    if v in strings && v != [] {
      var i :| 0 <= i < |strings| && strings[i] == v;
      assert v <= strings[i];
    }
  }

  /** A prefix that is not excluded is refused all the same. */
  lemma PrefixRefused(g: Rules, strings: seq<Word>, i: nat, n: nat, t: Word)
    requires CharRule(g) && CharNotEmpty(g) && SpaceRule(g) && t in OfItem(g, Ref("space"))
    requires i < |strings| && 0 < n <= |strings[i]|
    ensures [QUOTE] + strings[i][..n] + [QUOTE] + t !in OfSequence(g, NotStrings(strings))
  {
    assert !NoneNonEmpty(strings);
    NotStringsExact(g, strings, strings[i][..n], t);
    assert strings[i][..n] <= strings[i];
    assert IsPrefixOfOne(strings, strings[i][..n]);
  }

  /** The promise is kept exactly if some excluded string is not empty and the excluded strings are closed under prefixes. */
  lemma PromiseKeptIffPrefixesExcluded(g: Rules, strings: seq<Word>)
    requires CharRule(g) && CharNotEmpty(g) && SpaceRule(g) && [] in OfItem(g, Ref("space"))
    ensures KeepsPromise(g, strings) <==> !NoneNonEmpty(strings) && PrefixesExcluded(strings)
  {
    var none: Word := [];
    if NoneNonEmpty(strings) {
      var v: Word := [97];
      OnlyEmptyExcluded(g, strings, v);
      QuotedIffContent(g, strings, v, none);
      assert AllUnescaped(v) && v !in strings;
    } else if !PrefixesExcluded(strings) {
      var i, n :| 0 <= i < |strings| && 0 < n < |strings[i]| && AllUnescaped(strings[i][..n]) && strings[i][..n] !in strings;
      PrefixRefused(g, strings, i, n, none);
    } else {
      forall v: Word, t: Word | AllUnescaped(v) && t in OfItem(g, Ref("space"))
        ensures [QUOTE] + v + [QUOTE] + t in OfSequence(g, NotStrings(strings)) <==> v !in strings
      {
        NotStringsExact(g, strings, v, t);
        PrefixesDecide(strings, v);
      }
    }
  }

  /** With only `ab` excluded, `a` is refused too. */
  lemma AbRefusesA(g: Rules, t: Word)
    requires CharRule(g) && CharNotEmpty(g) && SpaceRule(g) && t in OfItem(g, Ref("space"))
    ensures [97] !in [[97, 98]] && [QUOTE] + [97] + [QUOTE] + t !in OfSequence(g, NotStrings([[97, 98]]))
  {
    var strings: seq<Word> := [[97, 98]];
    assert strings[0][..1] == [97];
    PrefixRefused(g, strings, 0, 1, t);
  }

  // ----- the `space` rule itself

  function SpaceBody(): Alternatives {
    Or(Or(Only(Empty), Snoc(Empty, Literal([32]))),
       Snoc(Snoc(Empty, Literal([10])), Repeat(CharClass(false, [Single(32), Single(9)]), Between(0, 20))))
  }

  lemma {:induction false} BlanksHaveNoQuotes(g: Rules, k: nat, w: Word)
    requires Power(OfItem(g, CharClass(false, [Single(32), Single(9)])), k, w)
    ensures QUOTE !in w
    decreases k
  {
    if k > 0 {
      var blank := CharClass(false, [Single(32), Single(9)]);
      var i := PowerUncons(OfItem(g, blank), k, w);
      BlanksHaveNoQuotes(g, k - 1, w[i..]);
      assert InItem(g, blank, w[..i]);
      assert w == w[..i] + w[i..];
    }
  }

  lemma LiteralIs(g: Rules, chars: Word, w: Word)
    requires w in OfItem(g, Literal(chars))
    ensures w == chars
  {
    assert InItem(g, Literal(chars), w);
  }

  /** The rule for blanks satisfies what the theorem asks of it. */
  lemma PrimitiveSpaceRule(g: Rules)
    requires "space" in g && g["space"] == SpaceBody()
    ensures SpaceRule(g) && [] in OfItem(g, Ref("space"))
  {
    RefLanguage(g, "space");
    var init := Or(Only(Empty), Snoc(Empty, Literal([32])));
    var newline := Snoc(Empty, Literal([10]));
    var blanks := Repeat(CharClass(false, [Single(32), Single(9)]), Between(0, 20));
    OrLanguage(g, init, Snoc(newline, blanks));
    OrLanguage(g, Only(Empty), Snoc(Empty, Literal([32])));
    OnlyLanguage(g, Empty);
    EmptyLanguage(g);
    OneLanguage(g, Literal([32]));
    OneLanguage(g, Literal([10]));
    SnocLanguage(g, newline, blanks);
    forall t | t in OfItem(g, Ref("space"))
      ensures QUOTE !in t
    {
      if t in OfSequence(g, Snoc(newline, blanks)) {
        var i: nat :| SplitsAt(OfSequence(g, newline), OfItem(g, blanks), t, i);
        LiteralIs(g, [10], t[..i]);
        RepeatLanguage(g, blanks.body, blanks.op, t[i..]);
        var k: nat :| Power(OfItem(g, blanks.body), k, t[i..]);
        BlanksHaveNoQuotes(g, k, t[i..]);
        assert t == t[..i] + t[i..];
      } else if t != [] {
        LiteralIs(g, [32], t);
      }
    }
  }
}
