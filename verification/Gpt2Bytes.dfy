/** GPT-2's printable spelling of bytes: each byte becomes one character of the vocabulary's alphabet. */
module Gpt2Bytes {
  import opened Bytes
  import opened Unicode

  predicate Printable(b: int) {
    33 <= b <= 126 || 161 <= b <= 172 || 174 <= b <= 255
  }

  /** How many bytes below `b` are not printable. */
  function Unprintables(b: nat): nat {
    if b == 0 then 0 else Unprintables(b - 1) + if Printable(b - 1) then 0 else 1
  }

  lemma {:induction false} UnprintablesAre(b: nat)
    requires b <= 256
    ensures Unprintables(b) ==
      if b <= 33 then b else if b <= 127 then 33 else if b <= 161 then b - 94 else if b <= 173 then 67 else 68
  {
    if b > 0 {
      UnprintablesAre(b - 1);
    }
  }

  /** The code point a byte is shown as. */
  function Symbol(b: Byte): nat {
    if Printable(b) then b else 256 + Unprintables(b)
  }

  lemma SymbolsAreShort(b: Byte)
    ensures Symbol(b) < 324
  {
    UnprintablesAre(b);
  }

  lemma SymbolIsInjective(a: Byte, b: Byte)
    requires Symbol(a) == Symbol(b)
    ensures a == b
  {
    UnprintablesAre(a);
    UnprintablesAre(b);
  }

  /** The printable bytes are shown as themselves. The other 68 are shown as the code points from 256 on, in increasing order. */
  lemma SymbolsAre(b: Byte, c: Byte)
    ensures 33 <= b <= 126 || 161 <= b <= 172 || 174 <= b ==> Symbol(b) == b
    ensures b <= 32 || 127 <= b <= 160 || b == 173 ==> 256 <= Symbol(b) < 324
    ensures b < c && Symbol(b) >= 256 && Symbol(c) >= 256 ==> Symbol(b) < Symbol(c)
  {
    UnprintablesAre(b);
    UnprintablesAre(c);
  }

  /** None of those is left out. */
  lemma SymbolsFill(x: nat) returns (b: Byte)
    requires 256 <= x < 324
    ensures Symbol(b) == x
  {
    var n := x - 256;
    b := if n < 33 then n else if n < 67 then n + 94 else 173;
    UnprintablesAre(b);
  }

  /** The values that the comment on the table names: a space is U+0120, a newline U+010A, a tab U+0109. */
  lemma NamedSymbols()
    ensures Symbol(32) == 0x120 && Symbol(10) == 0x10A && Symbol(9) == 0x109 && Symbol(65) == 65
    ensures Spelled([32]) == [0xC4, 0xA0] && Spelled([65, 10]) == [65, 0xC4, 0x8A]
  {
    UnprintablesAre(32);
    UnprintablesAre(10);
    UnprintablesAre(9);
    assert Shown(32) == [0xC4, 0xA0] && Shown(10) == [0xC4, 0x8A] && Shown(65) == [65];
    assert [32][..0] == [] && [65, 10][..1] == [65] && [65][..0] == [];
    assert Spelled([]) == [];
    assert Spelled([65]) == [] + [65];
    assert Spelled([32]) == [] + [0xC4, 0xA0];
    assert Spelled([65, 10]) == Spelled([65]) + Shown(10);
  }

  /** The inverse table. */
  function Originals(): (m: map<nat, Byte>)
    ensures forall b: Byte :: Symbol(b) in m && m[Symbol(b)] == b
    ensures forall c :: c in m ==> Symbol(m[c]) == c
  {
    OriginalsIsAMap();
    map b: Byte | 0 <= b < 256 :: Symbol(b) := b
  }

  lemma OriginalsIsAMap()
    ensures forall a: Byte, b: Byte :: Symbol(a) == Symbol(b) ==> a == b
  {
    forall a: Byte, b: Byte | Symbol(a) == Symbol(b)
      ensures a == b
    {
      SymbolIsInjective(a, b);
    }
  }

  /** A code point as UTF-8 (the third case is never needed for a symbol). */
  function Utf8(cp: nat): seq<Byte>
    requires cp < 0x10000
  {
    if cp < 0x80 then [cp]
    else if cp < 0x800 then [0xC0 + cp / 0x40, 0x80 + cp % 0x40]
    else [0xE0 + cp / 0x1000, 0x80 + cp / 0x40 % 0x40, 0x80 + cp % 0x40]
  }

  /** These are the bytes of the code point. */
  lemma Utf8IsEncoding(cp: nat)
    requires cp < 0x10000
    ensures Utf8(cp) == Encoding(cp)
  {
  }

  lemma Utf8IsOneChar(cp: nat)
    requires cp < 0x800
    ensures CharLength(Utf8(cp)) == |Utf8(cp)| <= 2 && FirstChar(Utf8(cp)) == cp
  {
  }

  function Shown(b: Byte): (s: seq<Byte>)
  {
    SymbolsAreShort(b);
    Utf8(Symbol(b))
  }

  /** The spelling of a byte string. */
  function Spelled(input: seq<Byte>): seq<Byte> {
    if input == [] then [] else Spelled(input[..|input| - 1]) + Shown(input[|input| - 1])
  }

  /** What the first character of a spelling stands for; characters outside the alphabet stand for themselves. */
  function FirstOriginal(s: seq<Byte>): seq<Byte>
    requires CharLength(s) > 0
  {
    if FirstChar(s) in Originals() then [Originals()[FirstChar(s)]] else s[..CharLength(s)]
  }

  /** The bytes behind a spelling. */
  function Original(s: seq<Byte>): seq<Byte>
    requires ValidUtf8(s)
    decreases |s|
  {
    if s == [] then [] else FirstOriginal(s) + Original(s[CharLength(s)..])
  }

  // ----- the tables and loops of the source

  method BuildTable() returns (t: array<nat>)
    ensures fresh(t) && t.Length == 256 && forall b: Byte :: t[b] == Symbol(b)
    ensures forall b: Byte :: (33 <= b <= 126 || 161 <= b <= 172 || 174 <= b) ==> t[b] == b
    ensures t[32] == 0x120 && t[10] == 0x10A
  {
    t := new nat[256];
    var n := 0;
    var b := 0;
    while b < 256
      invariant 0 <= b <= 256 && n == Unprintables(b)
      invariant forall a: Byte :: a < b ==> t[a] == Symbol(a)
    {
      if Printable(b) {
        t[b] := b;
      } else {
        t[b] := 256 + n;
        n := n + 1;
      }
      b := b + 1;
    }
    NamedSymbols();
  }

  predicate Maps(m: map<nat, Byte>, b: Byte) {
    Symbol(b) in m && m[Symbol(b)] == b
  }

  predicate MapsBack(m: map<nat, Byte>, c: nat) {
    c in m ==> Symbol(m[c]) == c
  }

  /** The table so far: every printable byte, and the others below `n`. */
  ghost predicate Inverts(m: map<nat, Byte>, n: nat) {
    && (forall b: Byte :: Printable(b) || b < n ==> Maps(m, b))
    && (forall c :: MapsBack(m, c))
  }

  lemma InvertsAll(m: map<nat, Byte>)
    requires Inverts(m, 256)
    ensures m == Originals()
  {
    forall c | c in m
      ensures c in Originals() && m[c] == Originals()[c]
    {
      assert MapsBack(m, c);
    }
    forall c | c in Originals()
      ensures c in m
    {
      assert Maps(m, Originals()[c]);
    }
  }

  lemma InvertsNext(m: map<nat, Byte>, byte: Byte)
    requires Inverts(m, byte) && !Printable(byte)
    ensures Inverts(m[Symbol(byte) := byte], byte + 1)
  {
    var more := m[Symbol(byte) := byte];
    forall b: Byte | Printable(b) || b < byte + 1
      ensures Maps(more, b)
    {
      StillMaps(m, byte, b);
    }
    forall c
      ensures MapsBack(more, c)
    {
      assert MapsBack(m, c);
    }
  }

  lemma StillMaps(m: map<nat, Byte>, byte: Byte, b: Byte)
    requires b != byte ==> Maps(m, b)
    ensures Maps(m[Symbol(byte) := byte], b)
  {
    if Symbol(b) == Symbol(byte) {
      SymbolIsInjective(b, byte);
    }
  }

  method BuildReverseTable() returns (m: map<nat, Byte>)
    ensures m == Originals()
  {
    m := PrintableTable();
    var n := 0;
    for byte := 0 to 256
      invariant n == Unprintables(byte) && Inverts(m, byte)
    {
      if !Printable(byte) {
        InvertsNext(m, byte);
        m := m[256 + n := byte];
        n := n + 1;
      }
    }
    InvertsAll(m);
  }

  method PrintableTable() returns (m: map<nat, Byte>)
    ensures Inverts(m, 0)
  {
    m := map[];
    for byte := 0 to 256
      invariant forall c :: c in m <==> 0 <= c < byte && Printable(c)
      invariant forall c :: c in m ==> m[c] == c
    {
      if Printable(byte) {
        m := m[byte := byte];
      }
    }
  }

  method PushUtf8(out: seq<Byte>, cp: nat) returns (r: seq<Byte>)
    requires cp < 0x10000
    ensures r == out + Utf8(cp)
  {
    if cp < 0x80 {
      r := out + [cp];
    } else if cp < 0x800 {
      r := out + [0xC0 + cp / 0x40];
      r := r + [0x80 + cp % 0x40];
    } else {
      r := out + [0xE0 + cp / 0x1000];
      r := r + [0x80 + cp / 0x40 % 0x40];
      r := r + [0x80 + cp % 0x40];
    }
  }

  method BytesToGpt2Unicode(input: seq<Byte>) returns (out: seq<Byte>)
    ensures out == Spelled(input)
  {
    var table := BuildTable();
    out := [];
    for i := 0 to |input|
      invariant out == Spelled(input[..i])
      invariant forall b: Byte :: table[b] == Symbol(b)
    {
      var cp := table[input[i]];
      SymbolsAreShort(input[i]);
      var utf8 := PushUtf8(out, cp);
      assert input[..i + 1][..i] == input[..i];
      out := utf8;
    }
    assert input[..|input|] == input;
  }

  method Gpt2UnicodeToOriginalBytes(s: seq<Byte>) returns (bytes: seq<Byte>)
    requires ValidUtf8(s)
    ensures bytes == Original(s)
  {
    var table := BuildReverseTable();
    bytes := [];
    var rest := s;
    while rest != []
      invariant ValidUtf8(rest) && bytes + Original(rest) == Original(s)
      decreases |rest|
    {
      var n := CharLength(rest);
      var piece := if FirstChar(rest) in table then [table[FirstChar(rest)]] else rest[..n];
      Associative(bytes, piece, Original(rest[n..]));
      bytes := bytes + piece;
      rest := rest[n..];
    }
  }

  // ----- the spelling is lossless

  lemma {:induction false} SpelledCons(b: Byte, input: seq<Byte>)
    ensures Spelled([b] + input) == Shown(b) + Spelled(input)
    decreases |input|
  {
    var n := |input| - 1;
    if input == [] {
      assert [b] + input == [b] && [b][..0] == [];
    } else {
      SpelledCons(b, input[..n]);
      assert ([b] + input)[..n + 1] == [b] + input[..n];
      Associative(Shown(b), Spelled(input[..n]), Shown(input[n]));
    }
  }

  lemma SpelledSnoc(s: seq<Byte>, b: Byte)
    ensures Spelled(s + [b]) == Spelled(s) + Shown(b)
  {
    assert (s + [b])[..|s|] == s;
  }

  lemma {:induction false} SpelledConcat(a: seq<Byte>, b: seq<Byte>)
    ensures Spelled(a + b) == Spelled(a) + Spelled(b)
    decreases |b|
  {
    if b == [] {
      assert a + b == a;
    } else {
      SpelledConcat(a, b[..|b| - 1]);
      SpelledConcatStep(a, b[..|b| - 1], b[|b| - 1]);
      assert b == b[..|b| - 1] + [b[|b| - 1]];
    }
  }

  lemma SpelledConcatStep(a: seq<Byte>, b: seq<Byte>, last: Byte)
    requires Spelled(a + b) == Spelled(a) + Spelled(b)
    ensures Spelled(a + (b + [last])) == Spelled(a) + Spelled(b + [last])
  {
    SpelledSnoc(a + b, last);
    SpelledSnoc(b, last);
    Associative(a, b, [last]);
    Associative(Spelled(a), Spelled(b), Shown(last));
  }

  lemma ShownIsOneChar(b: Byte, rest: seq<Byte>)
    ensures CharLength(Shown(b) + rest) == |Shown(b)| && 1 <= |Shown(b)| <= 2 && FirstChar(Shown(b) + rest) == Symbol(b)
  {
    SymbolsAreShort(b);
    Utf8IsOneChar(Symbol(b));
    FirstCharOfPrefix(Shown(b), rest);
  }

  /** Its first character stands for the first byte, and the rest is the rest. */
  lemma SpelledFront(b: Byte, rest: seq<Byte>)
    ensures var s := Spelled([b] + rest);
      && s == Shown(b) + Spelled(rest) && CharLength(s) == |Shown(b)| > 0 && s[CharLength(s)..] == Spelled(rest)
      && FirstOriginal(s) == [b]
  {
    SpelledCons(b, rest);
    ShownIsOneChar(b, Spelled(rest));
    DropFront(Shown(b), Spelled(rest));
  }

  lemma {:induction false} SpelledIsValid(input: seq<Byte>)
    ensures ValidUtf8(Spelled(input))
    decreases |input|
  {
    if input != [] {
      assert input == [input[0]] + input[1..];
      SpelledFront(input[0], input[1..]);
      SpelledIsValid(input[1..]);
    }
  }

  /** Reversing the spelling gives the bytes back. */
  lemma {:induction false} OriginalOfSpelled(input: seq<Byte>)
    ensures ValidUtf8(Spelled(input)) && Original(Spelled(input)) == input
    decreases |input|
  {
    SpelledIsValid(input);
    if input != [] {
      assert input == [input[0]] + input[1..];
      SpelledFront(input[0], input[1..]);
      OriginalOfSpelled(input[1..]);
    }
  }

  /** A valid string in front of a character takes all of it. */
  lemma WholeFront(a: seq<Byte>, b: seq<Byte>, first: Byte, rest: seq<Byte>)
    requires ValidUtf8(a) && a != [] && a + b == Shown(first) + rest
    ensures var n := |Shown(first)|;
      0 < n <= |a| && a[..n] == Shown(first) && a[n..] + b == rest && ValidUtf8(a[n..])
  {
    FrontLength(a, b, first, rest);
    ValidTail(a);
    SplitAt(a, b, Shown(first), rest);
  }

  lemma FrontLength(a: seq<Byte>, b: seq<Byte>, first: Byte, rest: seq<Byte>)
    requires CharLength(a) > 0 && a + b == Shown(first) + rest
    ensures CharLength(a) == |Shown(first)|
  {
    ShownIsOneChar(first, rest);
    FirstCharOfPrefix(a, b);
  }

  /** A valid string in front of a spelling is itself one: it never ends inside a character. */
  lemma {:induction false} SpelledPrefix(a: seq<Byte>, b: seq<Byte>, input: seq<Byte>) returns (k: nat)
    requires ValidUtf8(a) && a + b == Spelled(input)
    ensures k <= |input| && a == Spelled(input[..k]) && b == Spelled(input[k..])
    ensures a != [] ==> k > 0
    decreases |a|
  {
    if a == [] {
      k := 0;
      assert input[0..] == input;
    } else {
      assert input != [];
      var first, rest := input[0], input[1..];
      assert input == [first] + rest;
      SpelledCons(first, rest);
      WholeFront(a, b, first, Spelled(rest));
      var n := |Shown(first)|;
      var j := SpelledPrefix(a[n..], b, rest);
      k := j + 1;
      PrefixCons(first, rest, j, a, n);
    }
  }

  lemma PrefixCons(first: Byte, rest: seq<Byte>, j: nat, a: seq<Byte>, n: nat)
    requires n <= |a| && j <= |rest| && a[..n] == Shown(first) && a[n..] == Spelled(rest[..j])
    ensures a == Spelled(([first] + rest)[..j + 1]) && ([first] + rest)[j + 1..] == rest[j..]
  {
    SpelledCons(first, rest[..j]);
    SliceCons(first, rest, j);
    assert a == a[..n] + a[n..];
  }

  lemma {:induction false} OriginalConcat(a: seq<Byte>, b: seq<Byte>)
    requires ValidUtf8(a) && ValidUtf8(b)
    ensures ValidUtf8(a + b) && Original(a + b) == Original(a) + Original(b)
    decreases |a|
  {
    if a == [] {
      assert a + b == b;
    } else {
      var n := CharLength(a);
      ValidTail(a);
      OriginalConcat(a[n..], b);
      ConcatStep(a, b, n, a[n..]);
    }
  }

  lemma ConcatStep(a: seq<Byte>, b: seq<Byte>, n: nat, tail: seq<Byte>)
    requires ValidUtf8(a) && 0 < n == CharLength(a) && tail == a[n..] && ValidUtf8(tail)
    requires ValidUtf8(b) && ValidUtf8(tail + b) && Original(tail + b) == Original(tail) + Original(b)
    ensures ValidUtf8(a + b) && Original(a + b) == Original(a) + Original(b)
  {
    FirstOfConcat(a, b);
    ValidJoin(a, b, n);
    Associative(FirstOriginal(a), Original(tail), Original(b));
  }

  lemma ValidJoin(a: seq<Byte>, b: seq<Byte>, n: nat)
    requires a != [] && 0 < n == CharLength(a + b) <= |a| && (a + b)[n..] == a[n..] + b && ValidUtf8(a[n..] + b)
    ensures ValidUtf8(a + b) && Original(a + b) == FirstOriginal(a + b) + Original(a[n..] + b)
  {
  }

  lemma FirstOfConcat(a: seq<Byte>, b: seq<Byte>)
    requires CharLength(a) > 0
    ensures CharLength(a + b) == CharLength(a) && FirstOriginal(a + b) == FirstOriginal(a)
    ensures (a + b)[CharLength(a)..] == a[CharLength(a)..] + b
  {
    FirstCharOfPrefix(a, b);
    assert (a + b)[..CharLength(a)] == a[..CharLength(a)];
  }
}
