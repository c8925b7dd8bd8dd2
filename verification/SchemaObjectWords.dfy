/** Objects as JSON texts: braces, commas, colons and blanks written out as characters. */
module SchemaObjectWords {
  import opened Wrappers
  import opened GbnfSyntax
  import opened GbnfMeaning
  import opened GbnfLanguages
  import opened GbnfParser
  import opened GbnfPrinter
  import GbnfClosed
  import opened GbnfFragments
  import opened SchemaObjects
  import opened SchemaObjectLanguage
  import opened SchemaObjectEntries
  import opened SchemaObjectText

  // ----- concatenations

  lemma CatSplits(a: Lang, b: Lang, w: Word) returns (u: Word, v: Word)
    requires w in Cat(a, b)
    ensures w == u + v && u in a && v in b
  {
    var i: nat :| SplitsAt(a, b, w, i);
    u, v := w[..i], w[i..];
  }

  lemma CatJoins(a: Lang, b: Lang, u: Word, v: Word)
    requires u in a && v in b
    ensures u + v in Cat(a, b)
  {
    assert (u + v)[..|u|] == u && (u + v)[|u|..] == v;
    assert SplitsAt(a, b, u + v, |u|);
  }

  lemma LiteralWords(g: Rules, chars: Word, w: Word)
    ensures w in OfItem(g, Literal(chars)) <==> w == chars
  {
    assert ItemMatches(g, 0, Literal(chars), chars);
    assert InItem(g, Literal(chars), chars);
  }

  // ----- an entry

  ghost predicate IsSpace(g: Rules, s: Word) {
    s in OfItem(g, Ref("space"))
  }

  /** The key, a colon between blanks, and a value. */
  ghost predicate EntryParts(g: Rules, key: Word, valueRule: string, w: Word, s: Word, t: Word, v: Word) {
    IsSpace(g, s) && IsSpace(g, t) && v in OfItem(g, Ref(valueRule)) && w == key + s + [':' as int] + t + v
  }

  ghost predicate IsListed(g: Rules, key: Word, valueRule: string, w: Word) {
    exists s, t, v :: EntryParts(g, key, valueRule, w, s, t, v)
  }

  lemma ListedWords(g: Rules, p: Property, w: Word)
    ensures w in OfAlternatives(g, KeyValue(p)) <==> IsListed(g, p.dumped, p.ruleName, w)
  {
    var key := Snoc(Empty, Literal(p.dumped));
    var colon := Snoc(Snoc(key, Ref("space")), Literal([58]));
    OnlyLanguage(g, Snoc(Snoc(colon, Ref("space")), Ref(p.ruleName)));
    SnocLanguage(g, Snoc(colon, Ref("space")), Ref(p.ruleName));
    SnocLanguage(g, colon, Ref("space"));
    SnocLanguage(g, Snoc(key, Ref("space")), Literal([58]));
    SnocLanguage(g, key, Ref("space"));
    OneLanguage(g, Literal(p.dumped));
    if w in OfAlternatives(g, KeyValue(p)) {
      var u1, v := CatSplits(OfSequence(g, Snoc(colon, Ref("space"))), OfItem(g, Ref(p.ruleName)), w);
      var u2, t := CatSplits(OfSequence(g, colon), OfItem(g, Ref("space")), u1);
      var u3, c := CatSplits(OfSequence(g, Snoc(key, Ref("space"))), OfItem(g, Literal([58])), u2);
      var k, s := CatSplits(OfSequence(g, key), OfItem(g, Ref("space")), u3);
      LiteralWords(g, [58], c);
      LiteralWords(g, p.dumped, k);
      assert EntryParts(g, p.dumped, p.ruleName, w, s, t, v);
    }
    if IsListed(g, p.dumped, p.ruleName, w) {
      var s, t, v :| EntryParts(g, p.dumped, p.ruleName, w, s, t, v);
      LiteralWords(g, p.dumped, p.dumped);
      LiteralWords(g, [58], [58]);
      CatJoins(OfSequence(g, key), OfItem(g, Ref("space")), p.dumped, s);
      CatJoins(OfSequence(g, Snoc(key, Ref("space"))), OfItem(g, Literal([58])), p.dumped + s, [58]);
      CatJoins(OfSequence(g, colon), OfItem(g, Ref("space")), p.dumped + s + [58], t);
      CatJoins(OfSequence(g, Snoc(colon, Ref("space"))), OfItem(g, Ref(p.ruleName)), p.dumped + s + [58] + t, v);
    }
  }

  /** A key that is not listed, with the blanks its rule allows, a colon, and a value. */
  ghost predicate OtherParts(g: Rules, keyRule: string, valueRule: string, w: Word, k: Word, t: Word, v: Word) {
    k in OfItem(g, Ref(keyRule)) && IsSpace(g, t) && v in OfItem(g, Ref(valueRule)) && w == k + [':' as int] + t + v
  }

  ghost predicate IsOther(g: Rules, keyRule: string, valueRule: string, w: Word) {
    exists k, t, v :: OtherParts(g, keyRule, valueRule, w, k, t, v)
  }

  lemma OtherWords(g: Rules, keyRule: string, valueRule: string, w: Word)
    ensures w in OfAlternatives(g, AdditionalKeyValue(keyRule, valueRule)) <==> IsOther(g, keyRule, valueRule, w)
  {
    var key := Snoc(Empty, Ref(keyRule));
    var colon := Snoc(key, Literal([58]));
    OnlyLanguage(g, Snoc(Snoc(colon, Ref("space")), Ref(valueRule)));
    SnocLanguage(g, Snoc(colon, Ref("space")), Ref(valueRule));
    SnocLanguage(g, colon, Ref("space"));
    SnocLanguage(g, key, Literal([58]));
    OneLanguage(g, Ref(keyRule));
    if w in OfAlternatives(g, AdditionalKeyValue(keyRule, valueRule)) {
      var u1, v := CatSplits(OfSequence(g, Snoc(colon, Ref("space"))), OfItem(g, Ref(valueRule)), w);
      var u2, t := CatSplits(OfSequence(g, colon), OfItem(g, Ref("space")), u1);
      var k, c := CatSplits(OfSequence(g, key), OfItem(g, Literal([58])), u2);
      LiteralWords(g, [58], c);
      assert OtherParts(g, keyRule, valueRule, w, k, t, v);
    }
    if IsOther(g, keyRule, valueRule, w) {
      var k, t, v :| OtherParts(g, keyRule, valueRule, w, k, t, v);
      LiteralWords(g, [58], [58]);
      CatJoins(OfSequence(g, key), OfItem(g, Literal([58])), k, [58]);
      CatJoins(OfSequence(g, colon), OfItem(g, Ref("space")), k + [58], t);
      CatJoins(OfSequence(g, Snoc(colon, Ref("space"))), OfItem(g, Ref(valueRule)), k + [58] + t, v);
    }
  }

  /** The last property of the name is the one that counts. */
  ghost predicate IsLastNamed(properties: seq<Property>, name: string, i: nat) {
    i < |properties| && properties[i].name == name && forall j :: i < j < |properties| ==> properties[j].name != name
  }

  ghost predicate IsWordOf(g: Rules, properties: seq<Property>, additional: Option<(string, string)>, e: Entry, w: Word) {
    match e
    case Listed(name) =>
      exists i: nat :: IsLastNamed(properties, name, i) && IsListed(g, properties[i].dumped, properties[i].ruleName, w)
    case Additional =>
      additional.Some? && IsOther(g, additional.value.0, additional.value.1, w)
  }

  lemma {:induction false} LastOfIs(properties: seq<Property>, name: string, i: nat)
    requires IsLastNamed(properties, name, i)
    ensures LastOf(properties, name) == Some(properties[i])
    decreases |properties|
  {
    var n := |properties| - 1;
    if i < n {
      LastOfIs(properties[..n], name, i);
    }
  }

  lemma {:induction false} LastOfHas(properties: seq<Property>, name: string) returns (i: nat)
    requires LastOf(properties, name).Some?
    ensures IsLastNamed(properties, name, i) && properties[i] == LastOf(properties, name).value
    decreases |properties|
  {
    var n := |properties| - 1;
    if properties[n].name == name {
      i := n;
    } else {
      i := LastOfHas(properties[..n], name);
    }
  }

  lemma {:induction false} OwnWords(g: Rules, properties: seq<Property>, additional: Option<(string, string)>, e: Entry, w: Word)
    ensures w in OwnLang(g, properties, additional, e) <==> IsWordOf(g, properties, additional, e, w)
  {
    match e
    case Listed(name) =>
      if LastOf(properties, name).Some? {
        var i := LastOfHas(properties, name);
        ListedWords(g, properties[i], w);
      }
      forall i: nat | IsLastNamed(properties, name, i)
        ensures LastOf(properties, name) == Some(properties[i])
        ensures w in OfAlternatives(g, KeyValue(properties[i])) <==> IsListed(g, properties[i].dumped, properties[i].ruleName, w)
      {
        LastOfIs(properties, name, i);
        ListedWords(g, properties[i], w);
      }
    case Additional =>
      if additional.Some? {
        OtherWords(g, additional.value.0, additional.value.1, w);
      }
  }

  // ----- the members

  /** Each word behind a comma and blanks. */
  function Behind(ws: seq<Word>, ss: seq<Word>): Word
    requires |ws| == |ss|
  {
    if ws == [] then [] else [',' as int] + ss[0] + ws[0] + Behind(ws[1..], ss[1..])
  }

  /** The words with a comma and blanks between any two. */
  function Laid(ws: seq<Word>, ss: seq<Word>): Word
    requires |ss| == if ws == [] then 0 else |ws| - 1
  {
    if ws == [] then [] else ws[0] + Behind(ws[1..], ss)
  }

  ghost predicate AllSpaces(g: Rules, ss: seq<Word>) {
    forall i :: 0 <= i < |ss| ==> IsSpace(g, ss[i])
  }

  ghost predicate AreWordsOf(g: Rules, properties: seq<Property>, additional: Option<(string, string)>, es: seq<Entry>, ws: seq<Word>) {
    |ws| == |es| && forall i :: 0 <= i < |es| ==> IsWordOf(g, properties, additional, es[i], ws[i])
  }

  lemma CommaWords(g: Rules, w: Word)
    ensures w in CommaLang(g) <==> exists s :: IsSpace(g, s) && w == [',' as int] + s
  {
    SnocLanguage(g, Snoc(Empty, Literal([44])), Ref("space"));
    OneLanguage(g, Literal([44]));
    if w in CommaLang(g) {
      var c, s := CatSplits(OfItem(g, Literal([44])), OfItem(g, Ref("space")), w);
      LiteralWords(g, [44], c);
      assert IsSpace(g, s) && w == [44] + s;
    }
    if exists s :: IsSpace(g, s) && w == [',' as int] + s {
      var s :| IsSpace(g, s) && w == [',' as int] + s;
      LiteralWords(g, [44], [44]);
      CatJoins(OfItem(g, Literal([44])), OfItem(g, Ref("space")), [44], s);
    }
  }

  lemma {:induction false} TailSplits(g: Rules, properties: seq<Property>, additional: Option<(string, string)>, es: seq<Entry>, w: Word)
    returns (ws: seq<Word>, ss: seq<Word>)
    requires w in OwnTail(g, properties, additional, es)
    ensures |ss| == |ws| && AreWordsOf(g, properties, additional, es, ws) && AllSpaces(g, ss) && w == Behind(ws, ss)
    decreases |es|
  {
    ws, ss := [], [];
    if es != [] {
      var own := OwnLang(g, properties, additional, es[0]);
      var first, rest := CatSplits(Cat(CommaLang(g), own), OwnTail(g, properties, additional, es[1..]), w);
      var comma, x := CatSplits(CommaLang(g), own, first);
      CommaWords(g, comma);
      var s :| IsSpace(g, s) && comma == [',' as int] + s;
      OwnWords(g, properties, additional, es[0], x);
      var ws1, ss1 := TailSplits(g, properties, additional, es[1..], rest);
      ws, ss := [x] + ws1, [s] + ss1;
      assert ws[1..] == ws1 && ss[1..] == ss1;
    }
  }

  lemma {:induction false} TailJoins(g: Rules, properties: seq<Property>, additional: Option<(string, string)>, es: seq<Entry>,
                                     ws: seq<Word>, ss: seq<Word>)
    requires |ss| == |ws| && AreWordsOf(g, properties, additional, es, ws) && AllSpaces(g, ss)
    ensures Behind(ws, ss) in OwnTail(g, properties, additional, es)
    decreases |es|
  {
    if es != [] {
      var own := OwnLang(g, properties, additional, es[0]);
      CommaWords(g, [',' as int] + ss[0]);
      OwnWords(g, properties, additional, es[0], ws[0]);
      CatJoins(CommaLang(g), own, [',' as int] + ss[0], ws[0]);
      TailJoins(g, properties, additional, es[1..], ws[1..], ss[1..]);
      CatJoins(Cat(CommaLang(g), own), OwnTail(g, properties, additional, es[1..]), [',' as int] + ss[0] + ws[0], Behind(ws[1..], ss[1..]));
    }
  }

  ghost predicate AreMembers(g: Rules, properties: seq<Property>, additional: Option<(string, string)>, es: seq<Entry>, w: Word,
                             ws: seq<Word>, ss: seq<Word>) {
    && AreWordsOf(g, properties, additional, es, ws) && AllSpaces(g, ss)
    && |ss| == (if ws == [] then 0 else |ws| - 1) && w == Laid(ws, ss)
  }

  lemma {:induction false} EntriesSplit(g: Rules, properties: seq<Property>, additional: Option<(string, string)>, es: seq<Entry>, w: Word)
    returns (ws: seq<Word>, ss: seq<Word>)
    requires w in OwnEntries(g, properties, additional, es)
    ensures AreMembers(g, properties, additional, es, w, ws, ss)
  {
    ws, ss := [], [];
    if es != [] {
      var x, rest := CatSplits(OwnLang(g, properties, additional, es[0]), OwnTail(g, properties, additional, es[1..]), w);
      OwnWords(g, properties, additional, es[0], x);
      var ws1, ss1 := TailSplits(g, properties, additional, es[1..], rest);
      ws, ss := [x] + ws1, ss1;
      assert ws[1..] == ws1;
    }
  }

  lemma {:induction false} EntriesJoin(g: Rules, properties: seq<Property>, additional: Option<(string, string)>, es: seq<Entry>, w: Word,
                                       ws: seq<Word>, ss: seq<Word>)
    requires AreMembers(g, properties, additional, es, w, ws, ss)
    ensures w in OwnEntries(g, properties, additional, es)
  {
    if es != [] {
      OwnWords(g, properties, additional, es[0], ws[0]);
      TailJoins(g, properties, additional, es[1..], ws[1..], ss);
      CatJoins(OwnLang(g, properties, additional, es[0]), OwnTail(g, properties, additional, es[1..]), ws[0], Behind(ws[1..], ss));
    }
  }

  // ----- which properties are required

  /** The places of the properties that are required, or of the others, in order. */
  ghost predicate ArePlaces(properties: seq<Property>, required: set<string>, wanted: bool, places: seq<nat>) {
    && (forall k :: 0 <= k < |places| ==> places[k] < |properties|)
    && (forall k, l :: 0 <= k < l < |places| ==> places[k] < places[l])
    && (forall i :: 0 <= i < |properties| ==> (i in places <==> (properties[i].name in required <==> wanted)))
  }

  ghost predicate AreNamesAt(properties: seq<Property>, places: seq<nat>, names: seq<string>) {
    |names| == |places| && forall k :: 0 <= k < |places| ==> places[k] < |properties| && names[k] == properties[places[k]].name
  }

  ghost predicate AreNames(properties: seq<Property>, required: set<string>, wanted: bool, names: seq<string>) {
    exists places :: ArePlaces(properties, required, wanted, places) && AreNamesAt(properties, places, names)
  }

  lemma {:induction false} NamesHavePlaces(properties: seq<Property>, required: set<string>, wanted: bool) returns (places: seq<nat>)
    ensures ArePlaces(properties, required, wanted, places) && AreNamesAt(properties, places, Names(properties, required, wanted))
    decreases |properties|
  {
    places := [];
    if properties != [] {
      var n := |properties| - 1;
      var before := NamesHavePlaces(properties[..n], required, wanted);
      places := before + if properties[n].name in required <==> wanted then [n] else [];
      forall i | 0 <= i < |properties|
        ensures i in places <==> (properties[i].name in required <==> wanted)
      {
        if i < n {
          assert i in before <==> (properties[..n][i].name in required <==> wanted);
        }
      }
    }
  }

  lemma {:induction false} LastPlace(properties: seq<Property>, required: set<string>, wanted: bool, places: seq<nat>)
    requires properties != [] && ArePlaces(properties, required, wanted, places)
    requires properties[|properties| - 1].name in required <==> wanted
    ensures places != [] && places[|places| - 1] == |properties| - 1
    ensures ArePlaces(properties[..|properties| - 1], required, wanted, places[..|places| - 1])
  {
    var n, m := |properties| - 1, |places| - 1;
    assert n in places;
    var k :| 0 <= k < |places| && places[k] == n;
    assert k < m ==> places[k] < places[m];
    forall i | 0 <= i < n
      ensures i in places[..m] <==> (properties[..n][i].name in required <==> wanted)
    {
      assert places == places[..m] + [n];
    }
  }

  lemma {:induction false} NotLastPlace(properties: seq<Property>, required: set<string>, wanted: bool, places: seq<nat>)
    requires properties != [] && ArePlaces(properties, required, wanted, places)
    requires !(properties[|properties| - 1].name in required <==> wanted)
    ensures ArePlaces(properties[..|properties| - 1], required, wanted, places)
  {
    assert |properties| - 1 !in places;
  }

  lemma NamesInit(properties: seq<Property>, places: seq<nat>, names: seq<string>)
    requires properties != [] && AreNamesAt(properties, places, names) && places != []
    requires places[|places| - 1] == |properties| - 1 && forall k :: 0 <= k < |places| - 1 ==> places[k] < |properties| - 1
    ensures var m := |places| - 1;
      AreNamesAt(properties[..|properties| - 1], places[..m], names[..m]) && names == names[..m] + [properties[|properties| - 1].name]
  {
  }

  lemma {:induction false} PlacesDecide(properties: seq<Property>, required: set<string>, wanted: bool, places: seq<nat>, names: seq<string>)
    requires ArePlaces(properties, required, wanted, places) && AreNamesAt(properties, places, names)
    ensures names == Names(properties, required, wanted)
    decreases |properties|
  {
    if properties == [] {
      assert places == [];
    } else {
      var n, m := |properties| - 1, |places| - 1;
      if properties[n].name in required <==> wanted {
        LastPlace(properties, required, wanted, places);
        NamesInit(properties, places, names);
        PlacesDecide(properties[..n], required, wanted, places[..m], names[..m]);
      } else {
        NotLastPlace(properties, required, wanted, places);
        PlacesDecide(properties[..n], required, wanted, places, names);
      }
    }
  }

  // ----- the object

  /** Braces, the words of a promised sequence of entries, and blanks. */
  ghost predicate ObjectParts(g: Rules, properties: seq<Property>, additional: Option<(string, string)>, es: seq<Entry>, w: Word,
                              ws: seq<Word>, ss: seq<Word>, s: Word, t: Word) {
    && AreWordsOf(g, properties, additional, es, ws) && AllSpaces(g, ss) && |ss| == (if ws == [] then 0 else |ws| - 1)
    && IsSpace(g, s) && IsSpace(g, t) && w == ['{' as int] + s + Laid(ws, ss) + ['}' as int] + t
  }

  ghost predicate PromisedBy(properties: seq<Property>, required: set<string>, additional: bool, es: seq<Entry>, names: seq<string>, others: seq<string>) {
    && AreNames(properties, required, true, names) && AreNames(properties, required, false, others)
    && PromisedEntries(names, others, additional, es)
  }

  /** A JSON object with the required properties in order, some of the others in order, and then additional ones where allowed. */
  ghost predicate IsPromisedObject(g: Rules, properties: seq<Property>, required: set<string>, additional: Option<(string, string)>, w: Word) {
    exists es, names, others, ws, ss, s, t ::
      PromisedBy(properties, required, additional.Some?, es, names, others) && ObjectParts(g, properties, additional, es, w, ws, ss, s, t)
  }

  lemma {:induction false} PromisedByNames(properties: seq<Property>, required: set<string>, additional: bool, es: seq<Entry>)
    ensures PromisedEntries(Names(properties, required, true), Names(properties, required, false), additional, es) ==>
      PromisedBy(properties, required, additional, es, Names(properties, required, true), Names(properties, required, false))
    ensures forall names, others :: PromisedBy(properties, required, additional, es, names, others) ==>
      PromisedEntries(Names(properties, required, true), Names(properties, required, false), additional, es)
  {
    var p := NamesHavePlaces(properties, required, true);
    var q := NamesHavePlaces(properties, required, false);
    forall names, others | PromisedBy(properties, required, additional, es, names, others)
      ensures names == Names(properties, required, true) && others == Names(properties, required, false)
    {
      var a :| ArePlaces(properties, required, true, a) && AreNamesAt(properties, a, names);
      PlacesDecide(properties, required, true, a, names);
      var b :| ArePlaces(properties, required, false, b) && AreNamesAt(properties, b, others);
      PlacesDecide(properties, required, false, b, others);
    }
  }

  lemma OpenWords(g: Rules, w: Word)
    ensures w in OfSequence(g, Open()) <==> exists s :: IsSpace(g, s) && w == ['{' as int] + s
  {
    SnocLanguage(g, Snoc(Empty, Literal([123])), Ref("space"));
    OneLanguage(g, Literal([123]));
    if w in OfSequence(g, Open()) {
      var c, s := CatSplits(OfItem(g, Literal([123])), OfItem(g, Ref("space")), w);
      LiteralWords(g, [123], c);
      assert IsSpace(g, s) && w == [123] + s;
    }
    if exists s :: IsSpace(g, s) && w == ['{' as int] + s {
      var s :| IsSpace(g, s) && w == ['{' as int] + s;
      LiteralWords(g, [123], [123]);
      CatJoins(OfItem(g, Literal([123])), OfItem(g, Ref("space")), [123], s);
    }
  }

  /** Without a property called "*", the words of an object rule are the promised objects. */
  lemma {:induction false} ObjectsArePromised(g: Rules, kv: map<string, string>, properties: seq<Property>, required: set<string>,
                                              additional: Option<(string, string)>, w: Word)
    requires KeyRules(g, kv, properties, additional)
    requires STAR !in Names(properties, required, false) && (additional.Some? ==> STAR !in Names(properties, required, true))
    ensures w in Objects(g, kv, Names(properties, required, true), Optional(properties, required, additional.Some?)) <==>
      IsPromisedObject(g, properties, required, additional, w)
  {
    if w in Objects(g, kv, Names(properties, required, true), Optional(properties, required, additional.Some?)) {
      ObjectSplits(g, kv, properties, required, additional, w);
    }
    if IsPromisedObject(g, properties, required, additional, w) {
      var es, names, others, ws, ss, s, t :|
        PromisedBy(properties, required, additional.Some?, es, names, others) && ObjectParts(g, properties, additional, es, w, ws, ss, s, t);
      PromisedByNames(properties, required, additional.Some?, es);
      ObjectJoins(g, kv, properties, required, additional, w, es, ws, ss, s, t);
    }
  }

  lemma {:induction false} ObjectSplits(g: Rules, kv: map<string, string>, properties: seq<Property>, required: set<string>,
                                        additional: Option<(string, string)>, w: Word)
    requires KeyRules(g, kv, properties, additional)
    requires STAR !in Names(properties, required, false) && (additional.Some? ==> STAR !in Names(properties, required, true))
    requires w in Objects(g, kv, Names(properties, required, true), Optional(properties, required, additional.Some?))
    ensures IsPromisedObject(g, properties, required, additional, w)
  {
    var members := Members(g, kv, Names(properties, required, true), Optional(properties, required, additional.Some?));
    var u1, t := CatSplits(Cat(Cat(OfSequence(g, Open()), members), OfItem(g, Literal([125]))), OfItem(g, Ref("space")), w);
    var u2, c := CatSplits(Cat(OfSequence(g, Open()), members), OfItem(g, Literal([125])), u1);
    var open, m := CatSplits(OfSequence(g, Open()), members, u2);
    LiteralWords(g, [125], c);
    OpenWords(g, open);
    var s :| IsSpace(g, s) && open == ['{' as int] + s;
    MembersArePromised(g, kv, properties, required, additional, m);
    var es :| PromisedMembers(g, properties, required, additional, es, m);
    var ws, ss := EntriesSplit(g, properties, additional, es, m);
    PromisedByNames(properties, required, additional.Some?, es);
    assert ObjectParts(g, properties, additional, es, w, ws, ss, s, t);
    assert PromisedBy(properties, required, additional.Some?, es, Names(properties, required, true), Names(properties, required, false));
  }

  lemma {:induction false} ObjectJoins(g: Rules, kv: map<string, string>, properties: seq<Property>, required: set<string>,
                                       additional: Option<(string, string)>, w: Word, es: seq<Entry>,
                                       ws: seq<Word>, ss: seq<Word>, s: Word, t: Word)
    requires KeyRules(g, kv, properties, additional)
    requires STAR !in Names(properties, required, false) && (additional.Some? ==> STAR !in Names(properties, required, true))
    requires PromisedEntries(Names(properties, required, true), Names(properties, required, false), additional.Some?, es)
    requires ObjectParts(g, properties, additional, es, w, ws, ss, s, t)
    ensures w in Objects(g, kv, Names(properties, required, true), Optional(properties, required, additional.Some?))
  {
    var members := Members(g, kv, Names(properties, required, true), Optional(properties, required, additional.Some?));
    var m := Laid(ws, ss);
    EntriesJoin(g, properties, additional, es, m, ws, ss);
    assert PromisedMembers(g, properties, required, additional, es, m);
    MembersArePromised(g, kv, properties, required, additional, m);
    BracesJoin(g, members, s, m, t);
  }

  lemma BracesJoin(g: Rules, members: Lang, s: Word, m: Word, t: Word)
    requires IsSpace(g, s) && m in members && IsSpace(g, t)
    ensures ['{' as int] + s + m + ['}' as int] + t in
      Cat(Cat(Cat(OfSequence(g, Open()), members), OfItem(g, Literal([125]))), OfItem(g, Ref("space")))
  {
    LiteralWords(g, [125], [125]);
    OpenWords(g, ['{' as int] + s);
    CatJoins(OfSequence(g, Open()), members, ['{' as int] + s, m);
    CatJoins(Cat(OfSequence(g, Open()), members), OfItem(g, Literal([125])), ['{' as int] + s + m, [125]);
    CatJoins(Cat(Cat(OfSequence(g, Open()), members), OfItem(g, Literal([125]))), OfItem(g, Ref("space")), ['{' as int] + s + m + [125], t);
  }

  /** From the strings of the converter to JSON texts: what is generated under the object's name are the promised objects. */
  lemma {:induction false} WrittenObjectIsPromised(lines: seq<Line>, name: string, kv: map<string, string>, properties: seq<Property>,
                                                   required: set<string>, additional: Option<(string, string)>, s: Sequence, text: string, w: Word)
    requires forall i :: 0 <= i < |lines| ==> PrintableName(lines[i].name)
    requires forall i :: 0 <= i < |lines| && lines[i] != Line(lines[i].name, text, Only(s)) ==> ReadsAs(lines[i].text, lines[i].body)
    requires GbnfClosed.DefinesItsNames(Meant(lines)) && name in Bodies(Meant(lines)) && Bodies(Meant(lines))[name] == Only(s)
    requires var optional := Optional(properties, required, additional.Some?);
      WritesObject(Bodies(Meant(lines)), kv, Names(properties, required, true), optional, s, text)
    requires KeyRules(Bodies(Meant(lines)), kv, properties, additional)
    requires forall i :: 0 <= i < |properties| ==> properties[i].name != "*"
    ensures var t := Compile(FormatGrammar(lines));
      name in t.ids && (Generated(t, t.ids[name], w) <==> IsPromisedObject(Bodies(Meant(lines)), properties, required, additional, w))
  {
    NoStarAmong(properties, required, true);
    NoStarAmong(properties, required, false);
    WrittenObjectCompiles(lines, name, kv, Names(properties, required, true), Optional(properties, required, additional.Some?), s, text, w);
    ObjectsArePromised(Bodies(Meant(lines)), kv, properties, required, additional, w);
  }

  lemma {:induction false} NoStarAmong(properties: seq<Property>, required: set<string>, wanted: bool)
    requires forall i :: 0 <= i < |properties| ==> properties[i].name != "*"
    ensures STAR !in Names(properties, required, wanted)
  {
    var places := NamesHavePlaces(properties, required, wanted);
  }
}
