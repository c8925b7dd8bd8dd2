/** Whose entries an object may hold: those of the listed properties, and additional ones. */
module SchemaObjectEntries {
  import opened Wrappers
  import opened GbnfSyntax
  import opened GbnfLanguages
  import opened SchemaObjects
  import opened SchemaObjectLanguage
  import opened SchemaStrings

  /** An entry of the property of that name, or one of a property that is not listed. */
  datatype Entry = Listed(name: string) | Additional

  /** Whose rule is filed under the key: "*" is the additional one's wherever there is one. */
  function EntryOf(key: string, additional: bool): Entry {
    if additional && key == STAR then Additional else Listed(key)
  }

  function AsEntries(keys: seq<string>, additional: bool): seq<Entry> {
    seq(|keys|, i requires 0 <= i < |keys| => EntryOf(keys[i], additional))
  }

  // ----- the sequences of entries that are accepted, and those that are promised

  ghost predicate AcceptedAs(required: seq<string>, listed: seq<string>, additional: bool, keys: seq<string>, es: seq<Entry>) {
    Selection(listed + (if additional then [STAR] else []), keys) && es == AsEntries(required + keys, additional)
  }

  ghost predicate Accepted(required: seq<string>, listed: seq<string>, additional: bool, es: seq<Entry>) {
    exists keys :: AcceptedAs(required, listed, additional, keys, es)
  }

  function ListedAll(keys: seq<string>): seq<Entry> {
    seq(|keys|, i requires 0 <= i < |keys| => Listed(keys[i]))
  }

  function Others(n: nat): seq<Entry> {
    seq(n, _ => Additional)
  }

  ghost predicate PromisedAs(required: seq<string>, listed: seq<string>, additional: bool, keys: seq<string>, n: nat, es: seq<Entry>) {
    Subsequence(listed, keys) && (additional || n == 0) && es == ListedAll(required + keys) + Others(n)
  }

  /** The required properties, some of the others in order, and then, where allowed, any number of additional ones. */
  ghost predicate PromisedEntries(required: seq<string>, listed: seq<string>, additional: bool, es: seq<Entry>) {
    exists keys, n: nat :: PromisedAs(required, listed, additional, keys, n, es)
  }

  // ----- when they are the same

  function Stars(n: nat): (s: seq<string>)
    ensures |s| == n && AllStars(s)
  {
    seq(n, _ => STAR)
  }

  lemma {:induction false} SubsequenceIsAmong(ks: seq<string>, keys: seq<string>)
    requires Subsequence(ks, keys)
    ensures |keys| <= |ks| && forall i :: 0 <= i < |keys| ==> keys[i] in ks
    decreases |ks|
  {
    if ks != [] {
      if keys != [] && keys[0] == ks[0] && Subsequence(ks[1..], keys[1..]) {
        SubsequenceIsAmong(ks[1..], keys[1..]);
      } else {
        SubsequenceIsAmong(ks[1..], keys);
      }
    }
  }

  /** Without a listed "*", keys and entries tell the same. */
  lemma EntriesOfKeys(required: seq<string>, keys: seq<string>, n: nat, additional: bool)
    requires additional || n == 0
    requires additional ==> STAR !in required && STAR !in keys
    ensures AsEntries(required + (keys + Stars(n)), additional) == ListedAll(required + keys) + Others(n)
  {
    var all := required + (keys + Stars(n));
    var named := required + keys;
    assert all == named + Stars(n);
    assert forall i :: 0 <= i < |named| ==> all[i] == named[i] && EntryOf(named[i], additional) == Listed(named[i]);
  }

  lemma AcceptedIsPromised(required: seq<string>, listed: seq<string>, additional: bool, keys: seq<string>, es: seq<Entry>)
    requires STAR !in listed && (additional ==> STAR !in required)
    requires AcceptedAs(required, listed, additional, keys, es)
    ensures PromisedEntries(required, listed, additional, es)
  {
    SelectionIsPromised(listed, additional, keys);
    var i :| 0 <= i <= |keys| && Subsequence(listed, keys[..i]) && AllStars(keys[i..]) && (additional || i == |keys|);
    var n := |keys| - i;
    assert keys[i..] == Stars(n);
    assert keys == keys[..i] + Stars(n);
    SubsequenceIsAmong(listed, keys[..i]);
    EntriesOfKeys(required, keys[..i], n, additional);
    assert PromisedAs(required, listed, additional, keys[..i], n, es);
  }

  lemma PromisedIsAccepted(required: seq<string>, listed: seq<string>, additional: bool, keys: seq<string>, n: nat, es: seq<Entry>)
    requires STAR !in listed && (additional ==> STAR !in required)
    requires PromisedAs(required, listed, additional, keys, n, es)
    ensures Accepted(required, listed, additional, es)
  {
    var all := keys + Stars(n);
    assert all[..|keys|] == keys && all[|keys|..] == Stars(n);
    SelectionIsPromised(listed, additional, all);
    SubsequenceIsAmong(listed, keys);
    EntriesOfKeys(required, keys, n, additional);
    assert AcceptedAs(required, listed, additional, all, es);
  }

  lemma {:induction false} StarsSelected(ks: seq<string>, n: nat)
    requires STAR in ks
    ensures Selection(ks, Stars(n))
    decreases |ks|, n
  {
    if n == 0 {
      NothingSelected(ks);
      assert Stars(0) == [];
    } else if ks[0] == STAR {
      StarsSelected(ks, n - 1);
      assert Stars(n)[1..] == Stars(n - 1);
    } else {
      StarsSelected(ks[1..], n);
    }
  }

  lemma {:induction false} OneTaken(ks: seq<string>, key: string)
    requires key in ks
    ensures Subsequence(ks, [key])
    decreases |ks|
  {
    assert [key][1..] == [];
    NothingTaken(ks[1..]);
    if ks[0] != key {
      OneTaken(ks[1..], key);
    }
  }

  /** Without additional properties, a "*" that repeats outgrows every promise. */
  lemma RepeatedStarBreaks(required: seq<string>, listed: seq<string>)
    requires STAR in listed
    ensures exists es :: Accepted(required, listed, false, es) && !PromisedEntries(required, listed, false, es)
  {
    var stars := Stars(|listed| + 1);
    var es := AsEntries(required + stars, false);
    StarsSelected(listed, |stars|);
    assert listed + [] == listed;
    assert AcceptedAs(required, listed, false, stars, es);
    forall keys, n: nat
      ensures !PromisedAs(required, listed, false, keys, n, es)
    {
      if Subsequence(listed, keys) {
        SubsequenceIsAmong(listed, keys);
        assert |es| == |required| + |listed| + 1 && |ListedAll(required + keys) + Others(n)| == |required| + |keys| + n;
      }
    }
    assert Accepted(required, listed, false, es) && !PromisedEntries(required, listed, false, es);
  }

  /** Beside additional properties, an entry of a property called "*" is never accepted as its own. */
  lemma OverwrittenStarBreaks(required: seq<string>, listed: seq<string>)
    requires STAR in listed || STAR in required
    ensures exists es :: PromisedEntries(required, listed, true, es) && !Accepted(required, listed, true, es)
  {
    var keys: seq<string> := if STAR in listed then [STAR] else [];
    if STAR in listed {
      OneTaken(listed, STAR);
    } else {
      NothingTaken(listed);
    }
    var es := ListedAll(required + keys);
    assert es == es + Others(0);
    assert PromisedAs(required, listed, true, keys, 0, es);
    assert STAR in required + keys;
    var k :| 0 <= k < |required + keys| && (required + keys)[k] == STAR;
    assert es[k] == Listed(STAR);
    forall others
      ensures !AcceptedAs(required, listed, true, others, es)
    {
      if k < |required + others| {
        assert AsEntries(required + others, true)[k] == EntryOf((required + others)[k], true) != es[k];
      }
    }
    assert PromisedEntries(required, listed, true, es) && !Accepted(required, listed, true, es);
  }

  /** The accepted sequences of entries are the promised ones exactly if no optional property is called "*", nor, beside additional
      properties, a required one. */
  lemma EntriesKeptIffNoStar(required: seq<string>, listed: seq<string>, additional: bool)
    ensures (forall es :: Accepted(required, listed, additional, es) <==> PromisedEntries(required, listed, additional, es)) <==>
      STAR !in listed && (additional ==> STAR !in required)
  {
    if STAR !in listed && (additional ==> STAR !in required) {
      forall es
        ensures Accepted(required, listed, additional, es) <==> PromisedEntries(required, listed, additional, es)
      {
        if Accepted(required, listed, additional, es) {
          var keys :| AcceptedAs(required, listed, additional, keys, es);
          AcceptedIsPromised(required, listed, additional, keys, es);
        }
        if PromisedEntries(required, listed, additional, es) {
          var keys, n: nat :| PromisedAs(required, listed, additional, keys, n, es);
          PromisedIsAccepted(required, listed, additional, keys, n, es);
        }
      }
    } else if additional {
      OverwrittenStarBreaks(required, listed);
    } else {
      RepeatedStarBreaks(required, listed);
    }
  }

  // ----- the language of each entry

  /** The last property of that name. */
  function LastOf(properties: seq<Property>, name: string): Option<Property> {
    if properties == [] then None
    else
      var p := properties[|properties| - 1];
      if p.name == name then Some(p) else LastOf(properties[..|properties| - 1], name)
  }

  /** A listed entry is its key, a colon and its own value; an additional one has the rules for the others. */
  ghost function OwnLang(g: Rules, properties: seq<Property>, additional: Option<(string, string)>, e: Entry): Lang {
    match e
    case Listed(name) =>
      var p := LastOf(properties, name);
      if p.Some? then OfAlternatives(g, KeyValue(p.value)) else iset{}
    case Additional =>
      if additional.Some? then OfAlternatives(g, AdditionalKeyValue(additional.value.0, additional.value.1)) else iset{}
  }

  ghost function OwnTail(g: Rules, properties: seq<Property>, additional: Option<(string, string)>, es: seq<Entry>): Lang {
    if es == [] then iset{[]}
    else Cat(Cat(CommaLang(g), OwnLang(g, properties, additional, es[0])), OwnTail(g, properties, additional, es[1..]))
  }

  /** The entries in their own languages, with commas between them. */
  ghost function OwnEntries(g: Rules, properties: seq<Property>, additional: Option<(string, string)>, es: seq<Entry>): Lang {
    if es == [] then iset{[]}
    else Cat(OwnLang(g, properties, additional, es[0]), OwnTail(g, properties, additional, es[1..]))
  }

  lemma {:induction false} LastOfIsLast(properties: seq<Property>, required: set<string>, wanted: bool, name: string)
    requires name in Names(properties, required, wanted)
    ensures LastOf(properties, name).Some? && LastOf(properties, name).value.name == name
    ensures exists i :: 0 <= i < |properties| && IsLast(properties, i) && properties[i] == LastOf(properties, name).value
    decreases |properties|
  {
    var n := |properties| - 1;
    if properties[n].name == name {
      assert IsLast(properties, n);
    } else {
      LastOfIsLast(properties[..n], required, wanted, name);
      var i :| 0 <= i < n && IsLast(properties[..n], i) && properties[..n][i] == LastOf(properties[..n], name).value;
      assert forall j :: 0 <= j < n ==> properties[j] == properties[..n][j];
      assert IsLast(properties, i);
    }
  }

  /** The key is a property's name, or the "*" of the additional ones. */
  predicate KnownKey(properties: seq<Property>, required: set<string>, additional: bool, key: string) {
    key in Names(properties, required, true) || key in Names(properties, required, false) || (additional && key == STAR)
  }

  lemma KeyLangIsOwn(g: Rules, kv: map<string, string>, properties: seq<Property>, required: set<string>,
                     additional: Option<(string, string)>, key: string)
    requires KeyRules(g, kv, properties, additional) && KnownKey(properties, required, additional.Some?, key)
    ensures KeyLang(g, kv, key) == OwnLang(g, properties, additional, EntryOf(key, additional.Some?))
  {
    if !(additional.Some? && key == STAR) {
      LastOfIsLast(properties, required, key in Names(properties, required, true), key);
      var i :| 0 <= i < |properties| && IsLast(properties, i) && properties[i] == LastOf(properties, key).value;
      assert properties[i].name == key;
    }
    RefLanguage(g, kv[key]);
  }

  lemma {:induction false} TailIsOwn(g: Rules, kv: map<string, string>, properties: seq<Property>, required: set<string>,
                                     additional: Option<(string, string)>, keys: seq<string>)
    requires KeyRules(g, kv, properties, additional)
    requires forall i :: 0 <= i < |keys| ==> KnownKey(properties, required, additional.Some?, keys[i])
    ensures TailLang(g, kv, keys) == OwnTail(g, properties, additional, AsEntries(keys, additional.Some?))
    decreases |keys|
  {
    if keys != [] {
      KeyLangIsOwn(g, kv, properties, required, additional, keys[0]);
      TailIsOwn(g, kv, properties, required, additional, keys[1..]);
      assert AsEntries(keys, additional.Some?)[1..] == AsEntries(keys[1..], additional.Some?);
    }
  }

  lemma EntriesAreOwn(g: Rules, kv: map<string, string>, properties: seq<Property>, required: set<string>,
                      additional: Option<(string, string)>, keys: seq<string>)
    requires KeyRules(g, kv, properties, additional)
    requires forall i :: 0 <= i < |keys| ==> KnownKey(properties, required, additional.Some?, keys[i])
    ensures EntriesLang(g, kv, keys) == OwnEntries(g, properties, additional, AsEntries(keys, additional.Some?))
  {
    if keys != [] {
      KeyLangIsOwn(g, kv, properties, required, additional, keys[0]);
      TailIsOwn(g, kv, properties, required, additional, keys[1..]);
      assert AsEntries(keys, additional.Some?)[1..] == AsEntries(keys[1..], additional.Some?);
    }
  }

  lemma {:induction false} SelectedAreAmong(ks: seq<string>, keys: seq<string>)
    requires Selection(ks, keys)
    ensures forall i :: 0 <= i < |keys| ==> keys[i] in ks
    decreases |ks| + |keys|
  {
    if ks != [] {
      if keys != [] && keys[0] == ks[0] && Selection(After(ks), keys[1..]) {
        SelectedAreAmong(After(ks), keys[1..]);
      } else {
        SelectedAreAmong(ks[1..], keys);
      }
    }
  }

  // ----- the members of an object

  ghost predicate AcceptedMembers(g: Rules, properties: seq<Property>, required: set<string>, additional: Option<(string, string)>,
                                  es: seq<Entry>, w: Word) {
    && Accepted(Names(properties, required, true), Names(properties, required, false), additional.Some?, es)
    && w in OwnEntries(g, properties, additional, es)
  }

  ghost predicate PromisedMembers(g: Rules, properties: seq<Property>, required: set<string>, additional: Option<(string, string)>,
                                  es: seq<Entry>, w: Word) {
    && PromisedEntries(Names(properties, required, true), Names(properties, required, false), additional.Some?, es)
    && w in OwnEntries(g, properties, additional, es)
  }

  /** What stands between the braces is an accepted sequence of entries, each in its own language. */
  lemma MembersAreAccepted(g: Rules, kv: map<string, string>, properties: seq<Property>, required: set<string>,
                           additional: Option<(string, string)>, w: Word)
    requires KeyRules(g, kv, properties, additional)
    ensures w in Members(g, kv, Names(properties, required, true), Optional(properties, required, additional.Some?)) <==>
      exists es :: AcceptedMembers(g, properties, required, additional, es, w)
  {
    var req, listed := Names(properties, required, true), Names(properties, required, false);
    var optional := Optional(properties, required, additional.Some?);
    forall keys | Selection(optional, keys)
      ensures EntriesLang(g, kv, req + keys) == OwnEntries(g, properties, additional, AsEntries(req + keys, additional.Some?))
    {
      SelectedAreAmong(optional, keys);
      EntriesAreOwn(g, kv, properties, required, additional, req + keys);
    }
    if w in Members(g, kv, req, optional) {
      var keys :| MembersOf(g, kv, req, optional, keys, w);
      var es := AsEntries(req + keys, additional.Some?);
      assert AcceptedAs(req, listed, additional.Some?, keys, es);
      assert AcceptedMembers(g, properties, required, additional, es, w);
    }
    if es :| AcceptedMembers(g, properties, required, additional, es, w) {
      var keys :| AcceptedAs(req, listed, additional.Some?, keys, es);
      assert MembersOf(g, kv, req, optional, keys, w);
    }
  }

  /** With no property called "*", an object holds exactly the promised entries. */
  lemma MembersArePromised(g: Rules, kv: map<string, string>, properties: seq<Property>, required: set<string>,
                           additional: Option<(string, string)>, w: Word)
    requires KeyRules(g, kv, properties, additional)
    requires STAR !in Names(properties, required, false) && (additional.Some? ==> STAR !in Names(properties, required, true))
    ensures w in Members(g, kv, Names(properties, required, true), Optional(properties, required, additional.Some?)) <==>
      exists es :: PromisedMembers(g, properties, required, additional, es, w)
  {
    MembersAreAccepted(g, kv, properties, required, additional, w);
    EntriesKeptIffNoStar(Names(properties, required, true), Names(properties, required, false), additional.Some?);
    if es :| AcceptedMembers(g, properties, required, additional, es, w) {
      assert PromisedMembers(g, properties, required, additional, es, w);
    }
    if es :| PromisedMembers(g, properties, required, additional, es, w) {
      assert AcceptedMembers(g, properties, required, additional, es, w);
    }
  }

  /** Beside additional properties, `*` has their rule, whose key rule refuses `"*"` when a property is called so. */
  lemma StarLosesItsEntry(g: Rules, kv: map<string, string>, properties: seq<Property>, keyRule: string, valueRule: string,
                          names: seq<Word>, t: Word)
    requires KeyRules(g, kv, properties, Some((keyRule, valueRule)))
    requires keyRule in g && g[keyRule] == Only(NotStrings(names)) && [42] in names
    requires CharRule(g) && CharNotEmpty(g) && SpaceRule(g) && t in OfItem(g, Ref("space"))
    ensures KeyLang(g, kv, STAR) == OfAlternatives(g, AdditionalKeyValue(keyRule, valueRule))
    ensures [QUOTE] + [42] + [QUOTE] + t !in OfItem(g, Ref(keyRule))
  {
    RequiredStarIsAdditional(g, kv, properties, keyRule, valueRule);
    RefLanguage(g, keyRule);
    OnlyLanguage(g, NotStrings(names));
    var i :| 0 <= i < |names| && names[i] == [42];
    assert !NoneNonEmpty(names);
    NotStringsExact(g, names, [42], t);
  }
}
