/** The language of object rules, as sequences of keys. */
module SchemaObjectLanguage {
  import opened Wrappers
  import opened Languages
  import opened GbnfSyntax
  import opened GbnfLanguages
  import opened SchemaObjects

  /** `keys` is taken from `ks` in order, each at most once, except that "*" may repeat. */
  predicate Selection(ks: seq<string>, keys: seq<string>)
    decreases |ks| + |keys|
  {
    if ks == [] then keys == []
    else (keys != [] && keys[0] == ks[0] && Selection(After(ks), keys[1..])) || Selection(ks[1..], keys)
  }

  /** What may still come once the first of `ks` has been used. */
  function After(ks: seq<string>): (rest: seq<string>)
    requires ks != []
    ensures |rest| <= |ks|
  {
    if ks[0] == STAR then ks else ks[1..]
  }

  ghost function KeyLang(g: Rules, kv: map<string, string>, key: string): Lang {
    if key in kv then OfItem(g, Ref(kv[key])) else iset{}
  }

  ghost function CommaLang(g: Rules): Lang {
    OfSequence(g, Comma())
  }

  /** Each key's entry with a comma before it. */
  ghost function TailLang(g: Rules, kv: map<string, string>, keys: seq<string>): Lang {
    if keys == [] then iset{[]} else Cat(Cat(CommaLang(g), KeyLang(g, kv, keys[0])), TailLang(g, kv, keys[1..]))
  }

  /** The entries of `keys`, with a comma between any two. */
  ghost function EntriesLang(g: Rules, kv: map<string, string>, keys: seq<string>): Lang {
    if keys == [] then iset{[]} else Cat(KeyLang(g, kv, keys[0]), TailLang(g, kv, keys[1..]))
  }

  ghost predicate TailOf(g: Rules, kv: map<string, string>, ks: seq<string>, keys: seq<string>, w: Word) {
    Selection(ks, keys) && w in TailLang(g, kv, keys)
  }

  ghost predicate IsTail(g: Rules, kv: map<string, string>, ks: seq<string>, w: Word) {
    exists keys :: TailOf(g, kv, ks, keys, w)
  }

  /** Any selection from `ks`, each entry behind a comma. */
  ghost function Tails(g: Rules, kv: map<string, string>, ks: seq<string>): Lang {
    iset w | IsTail(g, kv, ks, w)
  }

  // ----- the options behind the first key

  lemma NoTails(g: Rules, kv: map<string, string>)
    ensures Tails(g, kv, []) == iset{[]}
  {
    assert TailOf(g, kv, [], [], []);
  }

  lemma TailsCons(g: Rules, kv: map<string, string>, ks: seq<string>, w: Word)
    requires ks != []
    ensures w in Tails(g, kv, ks) <==>
      w in Tails(g, kv, ks[1..]) || w in Cat(Cat(CommaLang(g), KeyLang(g, kv, ks[0])), Tails(g, kv, After(ks)))
  {
    if w in Tails(g, kv, ks) {
      var keys :| TailOf(g, kv, ks, keys, w);
      if Selection(ks[1..], keys) {
        assert TailOf(g, kv, ks[1..], keys, w);
      } else {
        var i: nat :| SplitsAt(Cat(CommaLang(g), KeyLang(g, kv, ks[0])), TailLang(g, kv, keys[1..]), w, i);
        assert TailOf(g, kv, After(ks), keys[1..], w[i..]);
        assert SplitsAt(Cat(CommaLang(g), KeyLang(g, kv, ks[0])), Tails(g, kv, After(ks)), w, i);
      }
    }
    if w in Tails(g, kv, ks[1..]) {
      var keys :| TailOf(g, kv, ks[1..], keys, w);
      assert TailOf(g, kv, ks, keys, w);
    }
    if w in Cat(Cat(CommaLang(g), KeyLang(g, kv, ks[0])), Tails(g, kv, After(ks))) {
      var i: nat :| SplitsAt(Cat(CommaLang(g), KeyLang(g, kv, ks[0])), Tails(g, kv, After(ks)), w, i);
      var keys :| TailOf(g, kv, After(ks), keys, w[i..]);
      TailLangCons(g, kv, ks[0], keys, w, i);
      assert ([ks[0]] + keys)[1..] == keys;
      assert TailOf(g, kv, ks, [ks[0]] + keys, w);
    }
  }

  lemma TailLangCons(g: Rules, kv: map<string, string>, key: string, keys: seq<string>, w: Word, i: nat)
    requires i <= |w| && w[..i] in Cat(CommaLang(g), KeyLang(g, kv, key)) && w[i..] in TailLang(g, kv, keys)
    ensures w in TailLang(g, kv, [key] + keys)
  {
    assert ([key] + keys)[1..] == keys;
    assert SplitsAt(Cat(CommaLang(g), KeyLang(g, kv, key)), TailLang(g, kv, keys), w, i);
  }

  /** For an ordinary key: present once, or absent. */
  lemma TailsPlain(g: Rules, kv: map<string, string>, ks: seq<string>)
    requires ks != [] && ks[0] != STAR
    ensures Tails(g, kv, ks) == Cat(iset{[]} + Cat(CommaLang(g), KeyLang(g, kv, ks[0])), Tails(g, kv, ks[1..]))
  {
    var one, rest := Cat(CommaLang(g), KeyLang(g, kv, ks[0])), Tails(g, kv, ks[1..]);
    forall w
      ensures w in Tails(g, kv, ks) <==> w in Cat(iset{[]} + one, rest)
    {
      TailsCons(g, kv, ks, w);
      OptionalCat(one, rest, w);
    }
  }

  lemma OptionalCat(one: Lang, rest: Lang, w: Word)
    ensures w in Cat(iset{[]} + one, rest) <==> w in rest || w in Cat(one, rest)
  {
    if w in rest {
      assert w[..0] == [] && w[0..] == w;
      assert SplitsAt(iset{[]} + one, rest, w, 0);
    }
    if w in Cat(one, rest) {
      var i: nat :| SplitsAt(one, rest, w, i);
      assert SplitsAt(iset{[]} + one, rest, w, i);
    }
    if w in Cat(iset{[]} + one, rest) {
      var i: nat :| SplitsAt(iset{[]} + one, rest, w, i);
      if w[..i] in one {
        assert SplitsAt(one, rest, w, i);
      } else {
        assert i == |w[..i]| == 0;
        assert w[0..] == w;
      }
    }
  }

  /** For "*": any number of times. */
  lemma TailsStar(g: Rules, kv: map<string, string>, ks: seq<string>)
    requires ks != [] && ks[0] == STAR
    ensures Tails(g, kv, ks) == Cat(Closure(Cat(CommaLang(g), KeyLang(g, kv, STAR))), Tails(g, kv, ks[1..]))
  {
    var one, rest := Cat(CommaLang(g), KeyLang(g, kv, STAR)), Tails(g, kv, ks[1..]);
    forall w | w in Tails(g, kv, ks)
      ensures w in Cat(Closure(one), rest)
    {
      var keys :| TailOf(g, kv, ks, keys, w);
      StarTailSplits(g, kv, ks, keys, w);
    }
    forall w | w in Cat(Closure(one), rest)
      ensures w in Tails(g, kv, ks)
    {
      var i: nat :| SplitsAt(Closure(one), rest, w, i);
      assert Repeats(one, w[..i]);
      var n: nat :| Power(one, n, w[..i]);
      StarTailJoins(g, kv, ks, n, w, i);
    }
  }

  lemma {:induction false} StarTailSplits(g: Rules, kv: map<string, string>, ks: seq<string>, keys: seq<string>, w: Word)
    requires ks != [] && ks[0] == STAR && TailOf(g, kv, ks, keys, w)
    ensures w in Cat(Closure(Cat(CommaLang(g), KeyLang(g, kv, STAR))), Tails(g, kv, ks[1..]))
    decreases |keys|
  {
    var one, rest := Cat(CommaLang(g), KeyLang(g, kv, STAR)), Tails(g, kv, ks[1..]);
    if Selection(ks[1..], keys) {
      assert TailOf(g, kv, ks[1..], keys, w);
      NoneThen(one, rest, w);
    } else {
      var i: nat :| SplitsAt(one, TailLang(g, kv, keys[1..]), w, i);
      StarTailSplits(g, kv, ks, keys[1..], w[i..]);
      OneMore(one, rest, w, i);
    }
  }

  lemma NoneThen(one: Lang, rest: Lang, w: Word)
    requires w in rest
    ensures w in Cat(Closure(one), rest)
  {
    assert Power(one, 0, w[..0]);
    assert Repeats(one, w[..0]);
    assert w[0..] == w;
    assert SplitsAt(Closure(one), rest, w, 0);
  }

  lemma OneMore(one: Lang, rest: Lang, w: Word, i: nat)
    requires i <= |w| && w[..i] in one && w[i..] in Cat(Closure(one), rest)
    ensures w in Cat(Closure(one), rest)
  {
    var v := w[i..];
    var j: nat :| SplitsAt(Closure(one), rest, v, j);
    assert Repeats(one, v[..j]);
    var n: nat :| Power(one, n, v[..j]);
    assert w[..i + j][..i] == w[..i] && w[..i + j][i..] == v[..j] && w[i + j..] == v[j..];
    PowerCons(one, n, w[..i + j], i);
    assert Repeats(one, w[..i + j]);
    assert SplitsAt(Closure(one), rest, w, i + j);
  }

  lemma {:induction false} StarTailJoins(g: Rules, kv: map<string, string>, ks: seq<string>, n: nat, w: Word, i: nat)
    requires ks != [] && ks[0] == STAR && i <= |w|
    requires Power(Cat(CommaLang(g), KeyLang(g, kv, STAR)), n, w[..i]) && w[i..] in Tails(g, kv, ks[1..])
    ensures w in Tails(g, kv, ks)
    decreases n
  {
    var one := Cat(CommaLang(g), KeyLang(g, kv, STAR));
    if n == 0 {
      assert i == |w[..i]| == 0;
      assert w[0..] == w;
    } else {
      var j := PowerUncons(one, n, w[..i]);
      assert w[..i][..j] == w[..j] && w[..i][j..] == w[j..][..i - j] && w[j..][i - j..] == w[i..];
      StarTailJoins(g, kv, ks, n - 1, w[j..], i - j);
      assert SplitsAt(one, Tails(g, kv, ks), w, j);
    }
    TailsCons(g, kv, ks, w);
  }

  // ----- the rules built for them

  lemma CommaRefLanguage(g: Rules, name: string)
    ensures OfItem(g, CommaRef(name)) == Cat(CommaLang(g), OfItem(g, Ref(name)))
  {
    GroupLanguage(g, Only(Snoc(Comma(), Ref(name))));
    OnlyLanguage(g, Snoc(Comma(), Ref(name)));
    SnocLanguage(g, Comma(), Ref(name));
  }

  /** The head of an optional list: the key once or never, "*" any number of times. */
  lemma OptionalHead(g: Rules, name: string, key: string)
    ensures OfSequence(g, Head(name, key, true)) ==
      var one := Cat(CommaLang(g), OfItem(g, Ref(name)));
      if key == STAR then Closure(one) else iset{[]} + one
  {
    CommaRefLanguage(g, name);
    OneLanguage(g, Repeat(CommaRef(name), if key == STAR then Star else Maybe));
    StarLanguage(g, CommaRef(name));
    MaybeLanguage(g, CommaRef(name));
  }

  lemma FirstHead(g: Rules, name: string, key: string)
    ensures OfSequence(g, Head(name, key, false)) ==
      if key == STAR then Cat(OfItem(g, Ref(name)), Closure(Cat(CommaLang(g), OfItem(g, Ref(name))))) else OfItem(g, Ref(name))
  {
    OneLanguage(g, Ref(name));
    SnocLanguage(g, Snoc(Empty, Ref(name)), Repeat(CommaRef(name), Star));
    StarLanguage(g, CommaRef(name));
    CommaRefLanguage(g, name);
  }

  /** The rule that follows a used key accepts exactly the selections from the remaining ones. */
  lemma {:induction false} RefsAreTails(g: Rules, kv: map<string, string>, ks: seq<string>, s: Sequence)
    requires Refs(g, kv, ks, true, s)
    ensures OfSequence(g, s) == Tails(g, kv, ks)
    decreases |ks|
  {
    var name := kv[ks[0]];
    OptionalHead(g, name, ks[0]);
    if ks[0] == STAR {
      TailsStar(g, kv, ks);
    } else {
      TailsPlain(g, kv, ks);
    }
    if |ks| == 1 {
      assert ks[1..] == [];
      NoTails(g, kv);
      CatNothing(OfSequence(g, s));
    } else {
      RestLanguage(g, kv, ks, s, true);
    }
  }

  lemma CatNothing(a: Lang)
    ensures Cat(a, iset{[]}) == a
  {
    forall w | w in a
      ensures w in Cat(a, iset{[]})
    {
      assert w[..|w|] == w && w[|w|..] == [];
      assert SplitsAt(a, iset{[]}, w, |w|);
    }
    forall w | w in Cat(a, iset{[]})
      ensures w in a
    {
      var i: nat :| SplitsAt(a, iset{[]}, w, i);
      assert |w[i..]| == 0;
      assert w[..i] == w;
    }
  }

  lemma {:induction false} RestLanguage(g: Rules, kv: map<string, string>, ks: seq<string>, s: Sequence, firstIsOptional: bool)
    requires |ks| > 1 && Refs(g, kv, ks, firstIsOptional, s)
    ensures OfSequence(g, s) == Cat(OfSequence(g, s.init), Tails(g, kv, ks[1..]))
    decreases |ks|, 0
  {
    var body := g[s.last.name].only;
    SnocLanguage(g, s.init, s.last);
    RefLanguage(g, s.last.name);
    OnlyLanguage(g, body);
    RefsAreTails(g, kv, ks[1..], body);
  }

  // ----- the first key

  ghost predicate EntriesOf(g: Rules, kv: map<string, string>, ks: seq<string>, keys: seq<string>, w: Word) {
    keys != [] && Selection(ks, keys) && w in EntriesLang(g, kv, keys)
  }

  ghost predicate IsEntries(g: Rules, kv: map<string, string>, ks: seq<string>, w: Word) {
    exists keys :: EntriesOf(g, kv, ks, keys, w)
  }

  /** Any non-empty selection from `ks`, with commas between the entries. */
  ghost function Entries(g: Rules, kv: map<string, string>, ks: seq<string>): Lang {
    iset w | IsEntries(g, kv, ks, w)
  }

  /** The selections that begin with the first of `ks`. */
  ghost function FirstEntries(g: Rules, kv: map<string, string>, ks: seq<string>): Lang
    requires ks != []
  {
    Cat(KeyLang(g, kv, ks[0]), Tails(g, kv, After(ks)))
  }

  lemma RefsAreFirst(g: Rules, kv: map<string, string>, ks: seq<string>, s: Sequence)
    requires Refs(g, kv, ks, false, s)
    ensures OfSequence(g, s) == FirstEntries(g, kv, ks)
  {
    var name := kv[ks[0]];
    FirstHead(g, name, ks[0]);
    if |ks| == 1 {
      assert ks[1..] == [];
      NoTails(g, kv);
    } else {
      RestLanguage(g, kv, ks, s, false);
    }
    if ks[0] == STAR {
      TailsStar(g, kv, ks);
      CatAssociative(OfItem(g, Ref(name)), Closure(Cat(CommaLang(g), OfItem(g, Ref(name)))), Tails(g, kv, ks[1..]));
    }
    if |ks| == 1 {
      CatNothing(OfSequence(g, s));
    }
  }

  lemma EntriesCons(g: Rules, kv: map<string, string>, ks: seq<string>, w: Word)
    requires ks != []
    ensures w in Entries(g, kv, ks) <==> w in FirstEntries(g, kv, ks) || w in Entries(g, kv, ks[1..])
  {
    if w in Entries(g, kv, ks) {
      var keys :| EntriesOf(g, kv, ks, keys, w);
      if Selection(ks[1..], keys) {
        assert EntriesOf(g, kv, ks[1..], keys, w);
      } else {
        var i: nat :| SplitsAt(KeyLang(g, kv, ks[0]), TailLang(g, kv, keys[1..]), w, i);
        assert TailOf(g, kv, After(ks), keys[1..], w[i..]);
        assert SplitsAt(KeyLang(g, kv, ks[0]), Tails(g, kv, After(ks)), w, i);
      }
    }
    if w in FirstEntries(g, kv, ks) {
      var i: nat :| SplitsAt(KeyLang(g, kv, ks[0]), Tails(g, kv, After(ks)), w, i);
      var keys :| TailOf(g, kv, After(ks), keys, w[i..]);
      FirstEntriesFrom(g, kv, ks, keys, w, i);
    }
    if w in Entries(g, kv, ks[1..]) {
      var keys :| EntriesOf(g, kv, ks[1..], keys, w);
      assert EntriesOf(g, kv, ks, keys, w);
    }
  }

  lemma FirstEntriesFrom(g: Rules, kv: map<string, string>, ks: seq<string>, keys: seq<string>, w: Word, i: nat)
    requires ks != [] && i <= |w| && w[..i] in KeyLang(g, kv, ks[0]) && TailOf(g, kv, After(ks), keys, w[i..])
    ensures EntriesOf(g, kv, ks, [ks[0]] + keys, w)
  {
    ConsTail(ks[0], keys);
    EntriesUnfold(g, kv, [ks[0]] + keys, ks[0], keys);
    assert SplitsAt(KeyLang(g, kv, ks[0]), TailLang(g, kv, keys), w, i);
  }

  lemma NoEntries(g: Rules, kv: map<string, string>, w: Word)
    ensures w !in Entries(g, kv, [])
  {
  }

  ghost predicate Among(g: Rules, kv: map<string, string>, ks: seq<string>, n: nat, w: Word)
    requires n <= |ks|
  {
    exists i :: 0 <= i < n && w in FirstEntries(g, kv, ks[i..])
  }

  lemma {:induction false} ChoicesAre(g: Rules, kv: map<string, string>, ks: seq<string>, n: nat, alts: Alternatives, w: Word)
    requires 0 < n <= |ks| && Choices(g, kv, ks, n, alts)
    ensures w in OfAlternatives(g, alts) <==> Among(g, kv, ks, n, w)
    decreases n
  {
    if n == 1 {
      OnlyLanguage(g, alts.only);
      RefsAreFirst(g, kv, ks, alts.only);
      assert ks[0..] == ks;
    } else {
      OrLanguage(g, alts.init, alts.last);
      ChoicesAre(g, kv, ks, n - 1, alts.init, w);
      RefsAreFirst(g, kv, ks[n - 1..], alts.last);
    }
  }

  lemma {:induction false} AmongIsEntries(g: Rules, kv: map<string, string>, ks: seq<string>, i: nat, w: Word)
    requires i <= |ks|
    ensures w in Entries(g, kv, ks[i..]) <==> exists j :: i <= j < |ks| && w in FirstEntries(g, kv, ks[j..])
    decreases |ks| - i
  {
    if i == |ks| {
      assert ks[i..] == [];
      NoEntries(g, kv, w);
    } else {
      EntriesCons(g, kv, ks[i..], w);
      assert ks[i..][1..] == ks[i + 1..];
      AmongIsEntries(g, kv, ks, i + 1, w);
    }
  }

  /** The alternatives accept exactly the non-empty selections. */
  lemma ChoicesAreEntries(g: Rules, kv: map<string, string>, ks: seq<string>, alts: Alternatives)
    requires ks != [] && Choices(g, kv, ks, |ks|, alts)
    ensures OfAlternatives(g, alts) == Entries(g, kv, ks)
  {
    forall w
      ensures w in OfAlternatives(g, alts) <==> w in Entries(g, kv, ks)
    {
      ChoicesAre(g, kv, ks, |ks|, alts, w);
      AmongIsEntries(g, kv, ks, 0, w);
      assert ks[0..] == ks;
    }
  }

  // ----- the whole object

  lemma ConsConcat<T>(a: seq<T>, b: seq<T>)
    requires a != []
    ensures a + b != [] && (a + b)[0] == a[0] && (a + b)[1..] == a[1..] + b
  {
  }

  lemma ConsTail<T>(x: T, s: seq<T>)
    ensures ([x] + s)[1..] == s
  {
  }

  lemma TailUnfolds(g: Rules, kv: map<string, string>, keys: seq<string>, key: string, rest: seq<string>)
    requires keys != [] && keys[0] == key && keys[1..] == rest
    ensures TailLang(g, kv, keys) == Cat(Cat(CommaLang(g), KeyLang(g, kv, key)), TailLang(g, kv, rest))
  {
  }

  lemma EntriesUnfold(g: Rules, kv: map<string, string>, keys: seq<string>, key: string, rest: seq<string>)
    requires keys != [] && keys[0] == key && keys[1..] == rest
    ensures EntriesLang(g, kv, keys) == Cat(KeyLang(g, kv, key), TailLang(g, kv, rest))
  {
  }

  lemma {:induction false} TailConcat(g: Rules, kv: map<string, string>, a: seq<string>, b: seq<string>)
    ensures TailLang(g, kv, a + b) == Cat(TailLang(g, kv, a), TailLang(g, kv, b))
    decreases |a|
  {
    if a == [] {
      assert a + b == b;
      CatEmpty(TailLang(g, kv, b));
    } else {
      TailConcat(g, kv, a[1..], b);
      TailConcatStep(g, kv, a, b);
    }
  }

  lemma TailConcatStep(g: Rules, kv: map<string, string>, a: seq<string>, b: seq<string>)
    requires a != [] && TailLang(g, kv, a[1..] + b) == Cat(TailLang(g, kv, a[1..]), TailLang(g, kv, b))
    ensures TailLang(g, kv, a + b) == Cat(TailLang(g, kv, a), TailLang(g, kv, b))
  {
    ConsConcat(a, b);
    TailUnfolds(g, kv, a, a[0], a[1..]);
    TailUnfolds(g, kv, a + b, a[0], a[1..] + b);
    Regroup(Cat(CommaLang(g), KeyLang(g, kv, a[0])), TailLang(g, kv, a[1..]), TailLang(g, kv, b), TailLang(g, kv, a[1..] + b), TailLang(g, kv, a));
  }

  lemma Regroup(a: Lang, b: Lang, c: Lang, bc: Lang, ab: Lang)
    requires bc == Cat(b, c) && ab == Cat(a, b)
    ensures Cat(a, bc) == Cat(ab, c)
  {
    CatAssociative(a, b, c);
  }

  lemma EntriesConcat(g: Rules, kv: map<string, string>, a: seq<string>, b: seq<string>)
    requires a != []
    ensures EntriesLang(g, kv, a + b) == Cat(EntriesLang(g, kv, a), TailLang(g, kv, b))
  {
    TailConcat(g, kv, a[1..], b);
    EntriesConcatStep(g, kv, a, b, a[1..] + b);
  }

  lemma EntriesConcatStep(g: Rules, kv: map<string, string>, a: seq<string>, b: seq<string>, rest: seq<string>)
    requires a != [] && rest == a[1..] + b && TailLang(g, kv, rest) == Cat(TailLang(g, kv, a[1..]), TailLang(g, kv, b))
    ensures EntriesLang(g, kv, a + b) == Cat(EntriesLang(g, kv, a), TailLang(g, kv, b))
  {
    ConsConcat(a, b);
    EntriesUnfold(g, kv, a, a[0], a[1..]);
    EntriesUnfold(g, kv, a + b, a[0], rest);
    Regroup(KeyLang(g, kv, a[0]), TailLang(g, kv, a[1..]), TailLang(g, kv, b), TailLang(g, kv, rest), EntriesLang(g, kv, a));
  }

  lemma TailOfOne(g: Rules, kv: map<string, string>, key: string)
    ensures TailLang(g, kv, [key]) == Cat(CommaLang(g), KeyLang(g, kv, key))
    ensures EntriesLang(g, kv, [key]) == KeyLang(g, kv, key)
  {
    assert [key][1..] == [];
    CatNothing(Cat(CommaLang(g), KeyLang(g, kv, key)));
    CatNothing(KeyLang(g, kv, key));
  }

  /** A comma behind a sequence. */
  lemma WithComma(g: Rules, s: Sequence)
    ensures OfSequence(g, Snoc(Snoc(s, Literal([44])), Ref("space"))) == Cat(OfSequence(g, s), CommaLang(g))
  {
    SnocLanguage(g, Snoc(s, Literal([44])), Ref("space"));
    SnocLanguage(g, s, Literal([44]));
    SnocLanguage(g, Snoc(Empty, Literal([44])), Ref("space"));
    OneLanguage(g, Literal([44]));
    CatAssociative(OfSequence(g, s), OfItem(g, Literal([44])), OfItem(g, Ref("space")));
  }

  lemma {:induction false} RequiredLanguage(g: Rules, kv: map<string, string>, required: seq<string>)
    requires Named(kv, required)
    ensures OfSequence(g, WithRequired(kv, required)) == Cat(OfSequence(g, Open()), EntriesLang(g, kv, required))
    decreases |required|
  {
    if required == [] {
      CatNothing(OfSequence(g, Open()));
    } else {
      var n := |required| - 1;
      var init, last := required[..n], required[n];
      var before := WithRequired(kv, init);
      RequiredLanguage(g, kv, init);
      assert required == init + [last];
      TailOfOne(g, kv, last);
      if n == 0 {
        SnocLanguage(g, before, Ref(kv[last]));
        CatNothing(OfSequence(g, Open()));
        assert required == [last];
      } else {
        SnocLanguage(g, Snoc(Snoc(before, Literal([44])), Ref("space")), Ref(kv[last]));
        WithComma(g, before);
        EntriesConcat(g, kv, init, [last]);
        CatAssociative(OfSequence(g, before), CommaLang(g), KeyLang(g, kv, last));
        CatAssociative(OfSequence(g, Open()), EntriesLang(g, kv, init), TailLang(g, kv, [last]));
      }
    }
  }

  /** The optional part behind required keys. */
  lemma OptionalBehind(g: Rules, kv: map<string, string>, ks: seq<string>, alts: Alternatives)
    requires ks != [] && Choices(g, kv, ks, |ks|, alts)
    ensures OfItem(g, Repeat(Group(Only(Snoc(Comma(), Group(alts)))), Maybe)) == Tails(g, kv, ks)
  {
    var group := Group(Only(Snoc(Comma(), Group(alts))));
    MaybeLanguage(g, group);
    GroupLanguage(g, Only(Snoc(Comma(), Group(alts))));
    OnlyLanguage(g, Snoc(Comma(), Group(alts)));
    SnocLanguage(g, Comma(), Group(alts));
    GroupLanguage(g, alts);
    ChoicesAreEntries(g, kv, ks, alts);
    forall w
      ensures w in Tails(g, kv, ks) <==> w == [] || w in Cat(CommaLang(g), Entries(g, kv, ks))
    {
      TailsAreEntries(g, kv, ks, w);
    }
  }

  lemma TailsAreEntries(g: Rules, kv: map<string, string>, ks: seq<string>, w: Word)
    ensures w in Tails(g, kv, ks) <==> w == [] || w in Cat(CommaLang(g), Entries(g, kv, ks))
  {
    if w == [] {
      NothingSelected(ks);
      assert TailOf(g, kv, ks, [], w);
    }
    if w in Tails(g, kv, ks) {
      var keys :| TailOf(g, kv, ks, keys, w);
      if keys != [] {
        CatAssociative(CommaLang(g), KeyLang(g, kv, keys[0]), TailLang(g, kv, keys[1..]));
        assert w in Cat(CommaLang(g), EntriesLang(g, kv, keys));
        var i: nat :| SplitsAt(CommaLang(g), EntriesLang(g, kv, keys), w, i);
        assert EntriesOf(g, kv, ks, keys, w[i..]);
        assert SplitsAt(CommaLang(g), Entries(g, kv, ks), w, i);
      }
    }
    if w in Cat(CommaLang(g), Entries(g, kv, ks)) {
      var i: nat :| SplitsAt(CommaLang(g), Entries(g, kv, ks), w, i);
      var keys :| EntriesOf(g, kv, ks, keys, w[i..]);
      CatAssociative(CommaLang(g), KeyLang(g, kv, keys[0]), TailLang(g, kv, keys[1..]));
      assert SplitsAt(CommaLang(g), EntriesLang(g, kv, keys), w, i);
      assert TailOf(g, kv, ks, keys, w);
    }
  }

  lemma {:induction false} NothingSelected(ks: seq<string>)
    ensures Selection(ks, [])
  {
    if ks != [] {
      NothingSelected(ks[1..]);
    }
  }

  ghost predicate MembersOf(g: Rules, kv: map<string, string>, required: seq<string>, optional: seq<string>, keys: seq<string>, w: Word) {
    Selection(optional, keys) && w in EntriesLang(g, kv, required + keys)
  }

  ghost predicate IsMembers(g: Rules, kv: map<string, string>, required: seq<string>, optional: seq<string>, w: Word) {
    exists keys :: MembersOf(g, kv, required, optional, keys, w)
  }

  /** The required keys in order, then a selection from the optional ones, with commas between the entries. */
  ghost function Members(g: Rules, kv: map<string, string>, required: seq<string>, optional: seq<string>): Lang {
    iset w | IsMembers(g, kv, required, optional, w)
  }

  lemma MembersWithRequired(g: Rules, kv: map<string, string>, required: seq<string>, optional: seq<string>)
    requires required != []
    ensures Members(g, kv, required, optional) == Cat(EntriesLang(g, kv, required), Tails(g, kv, optional))
  {
    forall w | w in Members(g, kv, required, optional)
      ensures w in Cat(EntriesLang(g, kv, required), Tails(g, kv, optional))
    {
      var keys :| MembersOf(g, kv, required, optional, keys, w);
      EntriesConcat(g, kv, required, keys);
      var i: nat :| SplitsAt(EntriesLang(g, kv, required), TailLang(g, kv, keys), w, i);
      assert TailOf(g, kv, optional, keys, w[i..]);
      assert SplitsAt(EntriesLang(g, kv, required), Tails(g, kv, optional), w, i);
    }
    forall w | w in Cat(EntriesLang(g, kv, required), Tails(g, kv, optional))
      ensures w in Members(g, kv, required, optional)
    {
      var i: nat :| SplitsAt(EntriesLang(g, kv, required), Tails(g, kv, optional), w, i);
      var keys :| TailOf(g, kv, optional, keys, w[i..]);
      EntriesConcat(g, kv, required, keys);
      assert SplitsAt(EntriesLang(g, kv, required), TailLang(g, kv, keys), w, i);
      assert MembersOf(g, kv, required, optional, keys, w);
    }
  }

  lemma MembersWithout(g: Rules, kv: map<string, string>, optional: seq<string>)
    ensures Members(g, kv, [], optional) == iset{[]} + Entries(g, kv, optional)
  {
    forall w
      ensures w in Members(g, kv, [], optional) <==> w == [] || w in Entries(g, kv, optional)
    {
      if w in Members(g, kv, [], optional) {
        var keys :| MembersOf(g, kv, [], optional, keys, w);
        assert [] + keys == keys;
        if keys != [] {
          assert EntriesOf(g, kv, optional, keys, w);
        }
      }
      if w == [] {
        NothingSelected(optional);
        var none: seq<string> := [];
        assert none + none == none;
        assert MembersOf(g, kv, none, optional, none, w);
      }
      if w in Entries(g, kv, optional) {
        var keys :| EntriesOf(g, kv, optional, keys, w);
        assert [] + keys == keys;
        assert MembersOf(g, kv, [], optional, keys, w);
      }
    }
  }

  lemma BodyLanguage(g: Rules, kv: map<string, string>, required: seq<string>, optional: seq<string>, alts: Alternatives)
    requires Named(kv, required) && optional != [] && Choices(g, kv, optional, |optional|, alts)
    ensures OfSequence(g, WithOptional(WithRequired(kv, required), required != [], Some(alts))) ==
      Cat(OfSequence(g, Open()), Members(g, kv, required, optional))
  {
    var s := WithRequired(kv, required);
    RequiredLanguage(g, kv, required);
    if required == [] {
      SnocLanguage(g, s, Repeat(Group(alts), Maybe));
      MaybeLanguage(g, Group(alts));
      GroupLanguage(g, alts);
      ChoicesAreEntries(g, kv, optional, alts);
      MembersWithout(g, kv, optional);
    } else {
      SnocLanguage(g, s, Repeat(Group(Only(Snoc(Comma(), Group(alts)))), Maybe));
      OptionalBehind(g, kv, optional, alts);
      MembersWithRequired(g, kv, required, optional);
      CatAssociative(OfSequence(g, Open()), EntriesLang(g, kv, required), Tails(g, kv, optional));
    }
  }

  /** The object rule accepts exactly the braces around the required keys in order, followed by any in-order
      selection from the optional ones. */
  lemma ObjectLanguage(g: Rules, kv: map<string, string>, required: seq<string>, optional: seq<string>, s: Sequence)
    requires IsObject(g, kv, required, optional, s)
    ensures OfSequence(g, s) ==
      Cat(Cat(Cat(OfSequence(g, Open()), Members(g, kv, required, optional)), OfItem(g, Literal([125]))), OfItem(g, Ref("space")))
  {
    var body := s.init.init;
    SnocLanguage(g, s.init, Ref("space"));
    SnocLanguage(g, body, Literal([125]));
    if optional == [] {
      RequiredLanguage(g, kv, required);
      OnlyRequired(g, kv, required);
    } else {
      var alts :| HasChoices(g, kv, required, optional, s, alts);
      BodyLanguage(g, kv, required, optional, alts);
    }
  }

  lemma OnlyRequired(g: Rules, kv: map<string, string>, required: seq<string>)
    ensures Members(g, kv, required, []) == EntriesLang(g, kv, required)
  {
    assert required + [] == required;
    forall w
      ensures w in Members(g, kv, required, []) <==> w in EntriesLang(g, kv, required)
    {
      if w in Members(g, kv, required, []) {
        var keys :| MembersOf(g, kv, required, [], keys, w);
      }
      if w in EntriesLang(g, kv, required) {
        assert MembersOf(g, kv, required, [], [], w);
      }
    }
  }

  // ----- what was promised

  /** A subsequence: each name at most once, in order. */
  predicate Subsequence(ks: seq<string>, keys: seq<string>) {
    if ks == [] then keys == []
    else (keys != [] && keys[0] == ks[0] && Subsequence(ks[1..], keys[1..])) || Subsequence(ks[1..], keys)
  }

  predicate AllStars(keys: seq<string>) {
    forall i :: 0 <= i < |keys| ==> keys[i] == STAR
  }

  /** Listed keys in order, each at most once, then any number of others if those are allowed. */
  ghost predicate Promised(listed: seq<string>, additional: bool, keys: seq<string>) {
    exists i :: 0 <= i <= |keys| && Subsequence(listed, keys[..i]) && AllStars(keys[i..]) && (additional || i == |keys|)
  }

  lemma {:induction false} StarsAfter(additional: bool, keys: seq<string>)
    ensures Selection(if additional then [STAR] else [], keys) <==> AllStars(keys) && (additional || keys == [])
    decreases |keys|
  {
    if additional && keys != [] {
      StarsAfter(additional, keys[1..]);
      assert [STAR][1..] == [];
      assert AllStars(keys) <==> keys[0] == STAR && AllStars(keys[1..]) by {
        assert keys == [keys[0]] + keys[1..];
      }
    }
  }

  /** Unless a property is itself called "*", the accepted key sequences are the promised ones. */
  lemma {:induction false} SelectionIsPromised(listed: seq<string>, additional: bool, keys: seq<string>)
    requires STAR !in listed
    ensures Selection(listed + (if additional then [STAR] else []), keys) <==> Promised(listed, additional, keys)
    decreases |listed| + |keys|
  {
    var stars := if additional then [STAR] else [];
    if listed == [] {
      assert listed + stars == stars;
      StarsAfter(additional, keys);
      assert keys[..0] == [] && keys[0..] == keys;
    } else {
      var rest := listed[1..];
      assert (listed + stars)[1..] == rest + stars && (listed + stars)[0] == listed[0];
      SelectionIsPromised(rest, additional, keys);
      if keys != [] {
        SelectionIsPromised(rest, additional, keys[1..]);
        PromisedCons(listed, additional, keys);
      } else {
        assert keys[..0] == [];
        PromisedNothing(listed, additional);
      }
    }
  }

  lemma PromisedNothing(listed: seq<string>, additional: bool)
    requires listed != []
    ensures Promised(listed, additional, []) <==> Promised(listed[1..], additional, [])
  {
    var none: seq<string> := [];
    assert none[..0] == none && none[0..] == none;
  }

  lemma PromisedCons(listed: seq<string>, additional: bool, keys: seq<string>)
    requires listed != [] && keys != [] && listed[0] != STAR
    ensures Promised(listed, additional, keys) <==>
      (keys[0] == listed[0] && Promised(listed[1..], additional, keys[1..])) || Promised(listed[1..], additional, keys)
  {
    if Promised(listed, additional, keys) {
      var i :| 0 <= i <= |keys| && Subsequence(listed, keys[..i]) && AllStars(keys[i..]) && (additional || i == |keys|);
      if i > 0 && keys[0] == listed[0] && Subsequence(listed[1..], keys[..i][1..]) {
        assert keys[..i][1..] == keys[1..][..i - 1] && keys[1..][i - 1..] == keys[i..];
      }
    }
    if keys[0] == listed[0] && Promised(listed[1..], additional, keys[1..]) {
      var i :| 0 <= i <= |keys[1..]| && Subsequence(listed[1..], keys[1..][..i]) && AllStars(keys[1..][i..]) && (additional || i == |keys[1..]|);
      assert keys[..i + 1][1..] == keys[1..][..i] && keys[1..][i..] == keys[i + 1..] && keys[..i + 1][0] == keys[0];
      assert Subsequence(listed, keys[..i + 1]);
    }
    if Promised(listed[1..], additional, keys) {
      var i :| 0 <= i <= |keys| && Subsequence(listed[1..], keys[..i]) && AllStars(keys[i..]) && (additional || i == |keys|);
      assert Subsequence(listed, keys[..i]);
    }
  }

  ghost predicate Distinct(ks: seq<string>) {
    forall i, j :: 0 <= i < j < |ks| ==> ks[i] != ks[j]
  }

  lemma {:induction false} StarRepeats(ks: seq<string>)
    requires STAR in ks
    ensures Selection(ks, [STAR]) && Selection(ks, [STAR, STAR])
    decreases |ks|
  {
    if ks[0] == STAR {
      assert [STAR, STAR][1..] == [STAR] && [STAR][1..] == [];
      NothingSelected(ks);
      assert Selection(ks, [STAR]);
    } else {
      StarRepeats(ks[1..]);
    }
  }

  lemma {:induction false} NoStarNoSubsequence(ks: seq<string>, keys: seq<string>)
    requires STAR !in ks && STAR in keys
    ensures !Subsequence(ks, keys)
    decreases |ks|
  {
    if ks != [] {
      NoStarNoSubsequence(ks[1..], keys);
      if keys[0] == ks[0] {
        assert keys == [keys[0]] + keys[1..];
        NoStarNoSubsequence(ks[1..], keys[1..]);
      }
    }
  }

  lemma {:induction false} OneStarAtMost(ks: seq<string>)
    requires Distinct(ks)
    ensures !Subsequence(ks, [STAR, STAR])
    decreases |ks|
  {
    if ks != [] {
      assert [STAR, STAR][1..] == [STAR];
      OneStarAtMost(ks[1..]);
      if ks[0] == STAR {
        assert STAR !in ks[1..];
        NoStarNoSubsequence(ks[1..], [STAR]);
      }
    }
  }

  /** Keys alone: without additional properties, the accepted sequences are the promised ones exactly if no property is called "*". */
  lemma PromiseKeptIffNoStar(listed: seq<string>)
    requires Distinct(listed)
    ensures (forall keys :: Selection(listed, keys) <==> Promised(listed, false, keys)) <==> STAR !in listed
  {
    if STAR in listed {
      var keys := [STAR, STAR];
      StarRepeats(listed);
      OneStarAtMost(listed);
      assert keys[..2] == keys;
      assert !Promised(listed, false, keys);
    } else {
      assert listed + [] == listed;
      forall keys: seq<string>
        ensures Selection(listed, keys) <==> Promised(listed, false, keys)
      {
        SelectionIsPromised(listed, false, keys);
      }
    }
  }

  // ----- a property called "*" beside additional ones

  lemma {:induction false} TwoStarsAreOne(ks: seq<string>, keys: seq<string>)
    ensures Selection(ks + [STAR, STAR], keys) <==> Selection(ks + [STAR], keys)
    decreases |ks| + |keys|
  {
    if ks == [] {
      assert ks + [STAR, STAR] == [STAR, STAR] && ks + [STAR] == [STAR] && [STAR, STAR][1..] == [STAR] && [STAR][1..] == [];
      if keys != [] && keys[0] == STAR {
        TwoStarsAreOne(ks, keys[1..]);
      }
    } else {
      assert (ks + [STAR, STAR])[1..] == ks[1..] + [STAR, STAR] && (ks + [STAR])[1..] == ks[1..] + [STAR];
      TwoStarsAreOne(ks[1..], keys);
      if keys != [] {
        TwoStarsAreOne(if ks[0] == STAR then ks else ks[1..], keys[1..]);
      }
    }
  }

  lemma {:induction false} SubsequenceSnoc(ks: seq<string>, last: string, keys: seq<string>)
    ensures Subsequence(ks + [last], keys) <==>
      Subsequence(ks, keys) || (keys != [] && keys[|keys| - 1] == last && Subsequence(ks, keys[..|keys| - 1]))
    decreases |ks|
  {
    if ks == [] {
      assert ks + [last] == [last] && [last][1..] == [];
      assert keys != [] ==> (keys[1..] == [] <==> |keys| == 1) && (keys[..|keys| - 1] == [] <==> |keys| == 1);
    } else {
      assert (ks + [last])[1..] == ks[1..] + [last];
      SubsequenceSnoc(ks[1..], last, keys);
      if keys != [] {
        SubsequenceSnoc(ks[1..], last, keys[1..]);
        if |keys| > 1 {
          assert keys[1..][..|keys| - 2] == keys[..|keys| - 1][1..];
        } else {
          assert keys[..0] == [] && keys[1..] == [];
          NothingTaken(ks[1..]);
        }
      }
    }
  }

  lemma {:induction false} NothingTaken(ks: seq<string>)
    ensures Subsequence(ks, [])
  {
    if ks != [] {
      NothingTaken(ks[1..]);
    }
  }

  /** A last "*" adds nothing to what additional properties allow. */
  lemma LastStarAddsNothing(listed: seq<string>, keys: seq<string>)
    ensures Promised(listed + [STAR], true, keys) <==> Promised(listed, true, keys)
  {
    if Promised(listed, true, keys) {
      var i :| 0 <= i <= |keys| && Subsequence(listed, keys[..i]) && AllStars(keys[i..]);
      SubsequenceSnoc(listed, STAR, keys[..i]);
      assert Subsequence(listed + [STAR], keys[..i]);
    }
    if Promised(listed + [STAR], true, keys) {
      var i :| 0 <= i <= |keys| && Subsequence(listed + [STAR], keys[..i]) && AllStars(keys[i..]);
      SubsequenceSnoc(listed, STAR, keys[..i]);
      if !Subsequence(listed, keys[..i]) {
        assert keys[..i][..i - 1] == keys[..i - 1];
        assert keys[i - 1..] == [keys[i - 1]] + keys[i..];
        assert AllStars(keys[i - 1..]);
      }
    }
  }

  /** From a star that is not last: two stars and the name behind it. */
  lemma {:induction false} StarsThenName(ks: seq<string>, n: nat)
    requires n + 1 < |ks| && ks[n] == STAR && ks[n + 1] != STAR
    ensures Selection(ks + [STAR], [STAR, STAR, ks[n + 1]])
    decreases n
  {
    var keys := [STAR, STAR, ks[n + 1]];
    var all := ks + [STAR];
    if n == 0 {
      assert keys[1..] == [STAR, ks[1]] && [STAR, ks[1]][1..] == [ks[1]] && [ks[1]][1..] == [];
      NothingSelected(all[1..][1..]);
      assert all[1..][0] == ks[1] && After(all[1..]) == all[1..][1..];
      assert Selection(all[1..], [ks[1]]);
      assert Selection(all, [ks[1]]);
      assert Selection(all, [STAR, ks[1]]);
    } else {
      StarsThenName(ks[1..], n - 1);
      assert all[1..] == ks[1..] + [STAR];
    }
  }

  lemma {:induction false} OneStarBefore(ks: seq<string>, x: string)
    requires Distinct(ks)
    ensures !Subsequence(ks, [STAR, STAR, x])
    decreases |ks|
  {
    if ks != [] {
      assert [STAR, STAR, x][1..] == [STAR, x];
      OneStarBefore(ks[1..], x);
      if ks[0] == STAR {
        assert STAR !in ks[1..];
        NoStarNoSubsequence(ks[1..], [STAR, x]);
      }
    }
  }

  /** Keys alone, a listed "*" counting as an additional one: with additional properties the accepted sequences are the promised ones
      exactly if no property, or at most the last one, is called "*". */
  lemma AdditionalKeptIffStarLast(listed: seq<string>)
    requires Distinct(listed)
    ensures (forall keys :: Selection(listed + [STAR], keys) <==> Promised(listed, true, keys)) <==>
      forall n :: 0 <= n < |listed| - 1 ==> listed[n] != STAR
  {
    if n :| 0 <= n < |listed| - 1 && listed[n] == STAR {
      var keys := [STAR, STAR, listed[n + 1]];
      StarsThenName(listed, n);
      StarsThenNameBroken(listed, listed[n + 1]);
      assert !(Selection(listed + [STAR], keys) <==> Promised(listed, true, keys));
    } else {
      forall keys: seq<string>
        ensures Selection(listed + [STAR], keys) <==> Promised(listed, true, keys)
      {
        if listed != [] && listed[|listed| - 1] == STAR {
          var init := listed[..|listed| - 1];
          assert listed == init + [STAR] && listed + [STAR] == init + [STAR, STAR];
          TwoStarsAreOne(init, keys);
          SelectionIsPromised(init, true, keys);
          LastStarAddsNothing(init, keys);
        } else {
          SelectionIsPromised(listed, true, keys);
        }
      }
    }
  }

  lemma StarsThenNameBroken(listed: seq<string>, x: string)
    requires Distinct(listed) && x != STAR
    ensures !Promised(listed, true, [STAR, STAR, x])
  {
    var keys := [STAR, STAR, x];
    OneStarBefore(listed, x);
    forall i | 0 <= i <= 3
      ensures !(Subsequence(listed, keys[..i]) && AllStars(keys[i..]))
    {
      if i < 3 {
        assert keys[i..][2 - i] == x;
      } else {
        assert keys[..3] == keys;
      }
    }
  }

  /** A required property called "*" gets the rule of the additional ones. */
  lemma RequiredStarIsAdditional(g: Rules, kv: map<string, string>, properties: seq<Property>, keyRule: string, valueRule: string)
    requires KeyRules(g, kv, properties, Some((keyRule, valueRule)))
    ensures KeyLang(g, kv, STAR) == OfAlternatives(g, AdditionalKeyValue(keyRule, valueRule))
  {
    RefLanguage(g, kv[STAR]);
  }
}
