/** Object schemas: which sequences of keys the generated rule accepts. */
module SchemaObjects {
  import opened Wrappers
  import opened Decimals
  import opened GbnfSyntax

  // ----- the table of rules

  predicate NameChar(c: char) {
    'a' <= c <= 'z' || 'A' <= c <= 'Z' || '0' <= c <= '9' || c == '-'
  }

  function DropInvalid(s: string): (rest: string)
    ensures |rest| <= |s|
  {
    if s == "" || NameChar(s[0]) then s else DropInvalid(s[1..])
  }

  /** Each run of characters that a rule name may not contain becomes one dash. */
  function Escape(s: string): string
    decreases |s|
  {
    if s == "" then ""
    else if NameChar(s[0]) then [s[0]] + Escape(s[1..])
    else "-" + Escape(DropInvalid(s[1..]))
  }

  /** The key is unused, or already stands for this very rule. */
  predicate Free(rules: Rules, key: string, rule: Alternatives) {
    key in rules ==> rules[key] == rule
  }

  /** The escaped name if it is free, else the first free one among the name with 0, 1, 2, ... behind it. */
  ghost predicate IsKeyFor(rules: Rules, name: string, rule: Alternatives, key: string) {
    var esc := Escape(name);
    if Free(rules, esc, rule) then key == esc
    else exists i: nat :: Numbered(rules, esc, rule, key, i)
  }

  function WithNumber(esc: string, i: nat): string {
    esc + Decimal(i)
  }

  ghost predicate Numbered(rules: Rules, esc: string, rule: Alternatives, key: string, i: nat) {
    key == esc + Decimal(i) && Free(rules, key, rule) && AllTaken(rules, esc, rule, i)
  }

  ghost predicate AllTaken(rules: Rules, esc: string, rule: Alternatives, i: nat) {
    forall j: nat :: j < i ==> !Free(rules, WithNumber(esc, j), rule)
  }

  /** No name has been bound to another rule. */
  ghost predicate Extends(before: Rules, after: Rules) {
    forall key :: key in before ==> key in after && after[key] == before[key]
  }

  // ----- the pieces of an object rule

  const STAR: string := "*"

  function Comma(): Sequence {
    Snoc(Snoc(Empty, Literal([44])), Ref("space"))
  }

  /** `( "," space kv )` */
  function CommaRef(kv: string): Item {
    Group(Only(Snoc(Comma(), Ref(kv))))
  }

  /** What a list of keys contributes for its first one. */
  function Head(kv: string, key: string, firstIsOptional: bool): Sequence {
    if firstIsOptional then Snoc(Empty, Repeat(CommaRef(kv), if key == STAR then Star else Maybe))
    else if key == STAR then Snoc(Snoc(Empty, Ref(kv)), Repeat(CommaRef(kv), Star))
    else Snoc(Empty, Ref(kv))
  }

  ghost predicate Named(kv: map<string, string>, ks: seq<string>) {
    forall i :: 0 <= i < |ks| ==> ks[i] in kv
  }

  /** `s` begins with the first key and goes on, through a rule of its own, with the others as options. */
  ghost predicate Refs(rules: Rules, kv: map<string, string>, ks: seq<string>, firstIsOptional: bool, s: Sequence)
    decreases |ks|
  {
    && ks != [] && ks[0] in kv
    && if |ks| == 1 then s == Head(kv[ks[0]], ks[0], firstIsOptional)
       else
         && s.Snoc? && s.init == Head(kv[ks[0]], ks[0], firstIsOptional) && s.last.Ref?
         && s.last.name in rules && rules[s.last.name].Only? && Refs(rules, kv, ks[1..], true, rules[s.last.name].only)
  }

  lemma {:induction false} RefsStay(before: Rules, after: Rules, kv: map<string, string>, ks: seq<string>, firstIsOptional: bool, s: Sequence)
    requires Extends(before, after) && Refs(before, kv, ks, firstIsOptional, s)
    ensures Refs(after, kv, ks, firstIsOptional, s)
    decreases |ks|
  {
    if |ks| > 1 {
      RefsStay(before, after, kv, ks[1..], true, before[s.last.name].only);
    }
  }

  /** One alternative for each optional key that may come first. */
  ghost predicate Choices(rules: Rules, kv: map<string, string>, ks: seq<string>, n: nat, alts: Alternatives)
    requires 0 < n <= |ks|
    decreases n
  {
    if n == 1 then alts.Only? && Refs(rules, kv, ks, false, alts.only)
    else alts.Or? && Choices(rules, kv, ks, n - 1, alts.init) && Refs(rules, kv, ks[n - 1..], false, alts.last)
  }

  lemma {:induction false} ChoicesStay(before: Rules, after: Rules, kv: map<string, string>, ks: seq<string>, n: nat, alts: Alternatives)
    requires 0 < n <= |ks| && Extends(before, after) && Choices(before, kv, ks, n, alts)
    ensures Choices(after, kv, ks, n, alts)
    decreases n
  {
    if n == 1 {
      RefsStay(before, after, kv, ks, false, alts.only);
    } else {
      ChoicesStay(before, after, kv, ks, n - 1, alts.init);
      RefsStay(before, after, kv, ks[n - 1..], false, alts.last);
    }
  }

  function Open(): Sequence {
    Snoc(Snoc(Empty, Literal([123])), Ref("space"))
  }

  function WithRequired(kv: map<string, string>, required: seq<string>): Sequence
    requires forall i :: 0 <= i < |required| ==> required[i] in kv
  {
    if required == [] then Open()
    else
      var n := |required| - 1;
      var before := WithRequired(kv, required[..n]);
      Snoc(if n == 0 then before else Snoc(Snoc(before, Literal([44])), Ref("space")), Ref(kv[required[n]]))
  }

  function WithOptional(s: Sequence, hasRequired: bool, choices: Option<Alternatives>): Sequence {
    match choices
    case None => s
    case Some(alts) => Snoc(s, Repeat(Group(if hasRequired then Only(Snoc(Comma(), Group(alts))) else alts), Maybe))
  }

  function Closed(s: Sequence): Sequence {
    Snoc(Snoc(s, Literal([125])), Ref("space"))
  }

  /** The shape of an object rule over a table of rules. */
  ghost predicate IsObject(rules: Rules, kv: map<string, string>, required: seq<string>, optional: seq<string>, s: Sequence) {
    && Named(kv, required) && Named(kv, optional)
    && if optional == [] then s == Closed(WithRequired(kv, required))
       else exists alts :: HasChoices(rules, kv, required, optional, s, alts)
  }

  ghost predicate HasChoices(rules: Rules, kv: map<string, string>, required: seq<string>, optional: seq<string>, s: Sequence, alts: Alternatives) {
    && Named(kv, required) && optional != [] && Choices(rules, kv, optional, |optional|, alts)
    && s == Closed(WithOptional(WithRequired(kv, required), required != [], Some(alts)))
  }

  datatype Property = Property(name: string, dumped: Word, ruleName: string)

  /** `"name" space ":" space value` */
  function KeyValue(p: Property): Alternatives {
    Only(Snoc(Snoc(Snoc(Snoc(Snoc(Empty, Literal(p.dumped)), Ref("space")), Literal([58])), Ref("space")), Ref(p.ruleName)))
  }

  /** `key ":" space value`, for the properties not listed. */
  function AdditionalKeyValue(keyRule: string, valueRule: string): Alternatives {
    Only(Snoc(Snoc(Snoc(Snoc(Empty, Ref(keyRule)), Literal([58])), Ref("space")), Ref(valueRule)))
  }

  function Prefixed(name: string, suffix: string): string {
    name + (if name == "" then "" else "-") + suffix
  }

  /** The last property of a name has its rule under that name. */
  ghost predicate HasRules(rules: Rules, kv: map<string, string>, properties: seq<Property>) {
    forall i :: 0 <= i < |properties| && IsLast(properties, i) ==>
      properties[i].name in kv && kv[properties[i].name] in rules && rules[kv[properties[i].name]] == KeyValue(properties[i])
  }

  predicate IsLast(properties: seq<Property>, i: nat)
    requires i < |properties|
  {
    forall j :: i < j < |properties| ==> properties[j].name != properties[i].name
  }

  class SchemaConverter {
    var rules: Rules

    method AddRule(name: string, rule: Alternatives) returns (key: string)
      modifies this
      ensures IsKeyFor(old(rules), name, rule, key)
      ensures rules == old(rules)[key := rule] && Extends(old(rules), rules)
    {
      var esc := Escape(name);
      if esc !in rules || rules[esc] == rule {
        key := esc;
      } else {
        var i := FreeNumber(esc, rule);
        key := WithNumber(esc, i);
        assert Numbered(rules, esc, rule, key, i);
      }
      rules := rules[key := rule];
    }

    /** The suffix search: it ends because every number tried is a different name in the table. */
    method FreeNumber(esc: string, rule: Alternatives) returns (i: nat)
      ensures Free(rules, WithNumber(esc, i), rule) && AllTaken(rules, esc, rule, i)
    {
      i := 0;
      ghost var taken: set<string> := {};
      while WithNumber(esc, i) in rules && rules[WithNumber(esc, i)] != rule
        invariant AllTaken(rules, esc, rule, i)
        invariant taken <= rules.Keys && Tried(esc, i, taken)
        decreases |rules.Keys| - i
      {
        OneMoreTried(esc, i, taken);
        taken := taken + {WithNumber(esc, i)};
        SubsetSize(taken, rules.Keys);
        i := i + 1;
      }
    }

    method GetRecursiveRefs(name: string, kv: map<string, string>, ks: seq<string>, firstIsOptional: bool) returns (res: Sequence)
      requires ks != [] && Named(kv, ks)
      modifies this
      ensures Extends(old(rules), rules) && Refs(rules, kv, ks, firstIsOptional, res)
      decreases |ks|
    {
      var k := ks[0];
      res := Head(kv[k], k, firstIsOptional);
      if |ks| > 1 {
        var rest := GetRecursiveRefs(name, kv, ks[1..], true);
        ghost var between := rules;
        var restName := AddRule(Prefixed(name, k + "-rest"), Only(rest));
        RefsStay(between, rules, kv, ks[1..], true, rest);
        res := Snoc(res, Ref(restName));
      }
    }

    method GetChoices(name: string, kv: map<string, string>, optional: seq<string>) returns (alts: Alternatives)
      requires optional != [] && Named(kv, optional)
      modifies this
      ensures Extends(old(rules), rules) && Choices(rules, kv, optional, |optional|, alts)
    {
      var first := GetRecursiveRefs(name, kv, optional, false);
      alts := Only(first);
      for i := 1 to |optional|
        invariant Extends(old(rules), rules) && Choices(rules, kv, optional, i, alts)
      {
        ghost var between := rules;
        var next := GetRecursiveRefs(name, kv, optional[i..], false);
        ChoicesStay(between, rules, kv, optional, i, alts);
        alts := Or(alts, next);
      }
    }

    /** The `-kv` rules of the properties, and which of them are required. */
    method AddProperties(name: string, properties: seq<Property>, required: set<string>)
      returns (requiredProps: seq<string>, optionalProps: seq<string>, kv: map<string, string>)
      modifies this
      ensures Extends(old(rules), rules) && Named(kv, requiredProps) && Named(kv, optionalProps)
      ensures requiredProps == Names(properties, required, true) && optionalProps == Names(properties, required, false)
      ensures HasRules(rules, kv, properties)
    {
      requiredProps, optionalProps, kv := [], [], map[];
      for n := 0 to |properties|
        invariant Extends(old(rules), rules) && Named(kv, requiredProps) && Named(kv, optionalProps)
        invariant requiredProps == Names(properties[..n], required, true) && optionalProps == Names(properties[..n], required, false)
        invariant HasRules(rules, kv, properties[..n])
      {
        var p := properties[n];
        ghost var before, kvBefore := rules, kv;
        var key := AddRule(Prefixed(name, p.name + "-kv"), KeyValue(p));
        kv := kv[p.name := key];
        HasRulesSnoc(before, rules, kvBefore, properties[..n], p, key);
        assert properties[..n + 1] == properties[..n] + [p];
        NamesSnoc(properties[..n], required, p);
        if p.name in required {
          requiredProps := requiredProps + [p.name];
        } else {
          optionalProps := optionalProps + [p.name];
        }
      }
      assert properties[..|properties|] == properties;
    }

    /** The rule for the properties not listed, filed under "*". */
    method AddAdditional(name: string, properties: seq<Property>, names: map<string, string>, optionalProps: seq<string>, additional: Option<(string, string)>)
      returns (kv: map<string, string>, optional: seq<string>)
      requires HasRules(rules, names, properties) && Named(names, optionalProps)
      modifies this
      ensures Extends(old(rules), rules) && KeyRules(rules, kv, properties, additional)
      ensures optional == optionalProps + (if additional.Some? then [STAR] else [])
      ensures Named(kv, optional) && forall k :: k in names ==> k in kv
    {
      kv, optional := names, optionalProps;
      if additional.Some? {
        var key := AddRule(Prefixed(name, "additional-kv"), AdditionalKeyValue(additional.value.0, additional.value.1));
        kv := kv[STAR := key];
        optional := optional + [STAR];
      }
      KeyRulesFrom(old(rules), rules, names, kv, properties, additional);
    }

    /** Required entries, then the choices. */
    method AssembleObject(name: string, kv: map<string, string>, required: seq<string>, optional: seq<string>) returns (rule: Sequence)
      requires Named(kv, required) && Named(kv, optional)
      modifies this
      ensures Extends(old(rules), rules) && IsObject(rules, kv, required, optional, rule)
    {
      var s := WithRequired(kv, required);
      if optional == [] {
        rule := Closed(s);
        return;
      }
      var choices := GetChoices(name, kv, optional);
      rule := Closed(WithOptional(s, required != [], Some(choices)));
      assert HasChoices(rules, kv, required, optional, rule, choices);
    }

    method BuildObjectRule(name: string, properties: seq<Property>, required: set<string>, additional: Option<(string, string)>)
      returns (rule: Sequence, ghost kv: map<string, string>)
      modifies this
      ensures Extends(old(rules), rules) && KeyRules(rules, kv, properties, additional)
      ensures IsObject(rules, kv, Names(properties, required, true), Optional(properties, required, additional.Some?), rule)
    {
      var requiredProps, optionalProps, listed := AddProperties(name, properties, required);
      var names, optional := AddAdditional(name, properties, listed, optionalProps, additional);
      kv := names;
      ghost var before := rules;
      rule := AssembleObject(name, names, requiredProps, optional);
      KeyRulesStay(before, rules, kv, properties, additional);
    }
  }

  /** The rules of the keys: the last property of a name has its own, unless "*" stands for the properties not listed. */
  ghost predicate KeyRules(rules: Rules, kv: map<string, string>, properties: seq<Property>, additional: Option<(string, string)>) {
    && (forall i :: 0 <= i < |properties| && IsLast(properties, i) && (additional.Some? ==> properties[i].name != STAR) ==>
         properties[i].name in kv && kv[properties[i].name] in rules && rules[kv[properties[i].name]] == KeyValue(properties[i]))
    && (additional.Some? ==>
         STAR in kv && kv[STAR] in rules && rules[kv[STAR]] == AdditionalKeyValue(additional.value.0, additional.value.1))
  }

  lemma KeyRulesStay(before: Rules, after: Rules, kv: map<string, string>, properties: seq<Property>, additional: Option<(string, string)>)
    requires Extends(before, after) && KeyRules(before, kv, properties, additional)
    ensures KeyRules(after, kv, properties, additional)
  {
  }

  lemma KeyRulesFrom(before: Rules, after: Rules, names: map<string, string>, kv: map<string, string>, properties: seq<Property>,
                     additional: Option<(string, string)>)
    requires HasRules(before, names, properties) && Extends(before, after)
    requires if additional.None? then kv == names
             else STAR in kv && kv == names[STAR := kv[STAR]] && kv[STAR] in after &&
                  after[kv[STAR]] == AdditionalKeyValue(additional.value.0, additional.value.1)
    ensures KeyRules(after, kv, properties, additional)
  {
  }

  function Optional(properties: seq<Property>, required: set<string>, additional: bool): seq<string> {
    Names(properties, required, false) + if additional then [STAR] else []
  }

  lemma HasRulesSnoc(before: Rules, after: Rules, kv: map<string, string>, properties: seq<Property>, p: Property, key: string)
    requires HasRules(before, kv, properties) && Extends(before, after) && key in after && after[key] == KeyValue(p)
    ensures HasRules(after, kv[p.name := key], properties + [p])
  {
    var more := properties + [p];
    forall i | 0 <= i < |more| && IsLast(more, i)
      ensures more[i].name in kv[p.name := key] && kv[p.name := key][more[i].name] in after
      ensures after[kv[p.name := key][more[i].name]] == KeyValue(more[i])
    {
      if i < |properties| {
        assert more[|properties|] == p && more[i] == properties[i];
        assert IsLast(properties, i) by {
          assert forall j :: i < j < |properties| ==> more[j] == properties[j];
        }
      }
    }
  }

  lemma NamesSnoc(properties: seq<Property>, required: set<string>, p: Property)
    ensures Names(properties + [p], required, true) == Names(properties, required, true) + if p.name in required then [p.name] else []
    ensures Names(properties + [p], required, false) == Names(properties, required, false) + if p.name in required then [] else [p.name]
  {
    assert (properties + [p])[..|properties|] == properties;
  }

  /** The names of the required properties, or of the others, in order. */
  function Names(properties: seq<Property>, required: set<string>, wanted: bool): seq<string> {
    if properties == [] then []
    else
      var p := properties[|properties| - 1];
      Names(properties[..|properties| - 1], required, wanted) + if (p.name in required) == wanted then [p.name] else []
  }

  /** As many different names as numbers have been tried. */
  ghost predicate Tried(esc: string, i: nat, taken: set<string>) {
    |taken| == i && forall k :: k in taken ==> exists j: nat :: j < i && k == WithNumber(esc, j)
  }

  lemma OneMoreTried(esc: string, i: nat, taken: set<string>)
    requires Tried(esc, i, taken)
    ensures Tried(esc, i + 1, taken + {WithNumber(esc, i)})
  {
    if WithNumber(esc, i) in taken {
      var j: nat :| j < i && WithNumber(esc, i) == WithNumber(esc, j);
      NumbersDiffer(esc, i, j);
    }
    forall k | k in taken + {WithNumber(esc, i)}
      ensures exists j: nat :: j < i + 1 && k == WithNumber(esc, j)
    {
      if k in taken {
        var j: nat :| j < i && k == WithNumber(esc, j);
      }
    }
  }

  lemma NumbersDiffer(esc: string, i: nat, j: nat)
    requires WithNumber(esc, i) == WithNumber(esc, j)
    ensures i == j
  {
    assert (esc + Decimal(i))[|esc|..] == Decimal(i) && (esc + Decimal(j))[|esc|..] == Decimal(j);
    DecimalInjective(i, j);
  }
}
