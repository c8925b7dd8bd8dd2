/** Base64 (section 4 of RFC 4648) and its URL-safe form (section 5), with decoding in place. */
module Base64 {
  import opened Wrappers
  import opened Bytes

  datatype Alphabet = Auto | Standard | UrlSafe

  const PAD: Byte := 61

  /** The character for a six-bit value. */
  function Digit(v: nat, urlSafe: bool): Byte
    requires v < 64
  {
    if v < 26 then 65 + v
    else if v < 52 then 97 + (v - 26)
    else if v < 62 then 48 + (v - 52)
    else if v == 62 then if urlSafe then 45 else 43
    else if urlSafe then 95 else 47
  }

  /** A character's value and the alphabet from there on; None is the exception. */
  function Value(a: Alphabet, c: Byte): (r: Option<(nat, Alphabet)>)
    ensures r.Some? ==> r.value.0 < 64
  {
    if 65 <= c <= 90 then Some((c - 65, a))
    else if 97 <= c <= 122 then Some((c - 97 + 26, a))
    else if 48 <= c <= 57 then Some((c - 48 + 52, a))
    else if c == 43 && a != UrlSafe then Some((62, Standard))
    else if c == 47 && a != UrlSafe then Some((63, Standard))
    else if c == 45 && a != Standard then Some((62, UrlSafe))
    else if c == 95 && a != Standard then Some((63, UrlSafe))
    else None
  }

  function Encoded(s: seq<Byte>, urlSafe: bool): seq<Byte>
    decreases |s|
  {
    if s == [] then []
    else if |s| == 1 then [Digit(First(s[0]), urlSafe), Digit(Second(s[0], 0), urlSafe), PAD, PAD]
    else if |s| == 2 then [Digit(First(s[0]), urlSafe), Digit(Second(s[0], s[1]), urlSafe), Digit(Third(s[1], 0), urlSafe), PAD]
    else
      [Digit(First(s[0]), urlSafe), Digit(Second(s[0], s[1]), urlSafe), Digit(Third(s[1], s[2]), urlSafe), Digit(Fourth(s[2]), urlSafe)]
      + Encoded(s[3..], urlSafe)
  }

  function RequiredEncodeSize(size: nat): nat {
    (size / 3 + if size % 3 != 0 then 1 else 0) * 4
  }

  function MaxDecodeSize(size: nat): nat {
    (size / 4 + if size % 4 != 0 then 1 else 0) * 3
  }

  /** The byte completed by `part`, given the last `bits` bits of `last`: `last << (8 - bits) | part >> (bits - 2)`, cut to a byte. */
  function Completed(last: nat, bits: nat, part: nat): Byte
    requires bits in {2, 4, 6} && last < 64 && part < 64
  {
    if bits == 6 then last * 4 % 256 + part / 16
    else if bits == 4 then last * 16 % 256 + part / 4
    else last * 64 % 256 + part
  }

  // The four six-bit values of three bytes.

  function First(i0: Byte): (v: nat)
    ensures v < 64
  {
    i0 / 4
  }

  function Second(i0: Byte, i1: Byte): (v: nat)
    ensures v < 64
  {
    i0 % 4 * 16 + i1 / 16
  }

  function Third(i1: Byte, i2: Byte): (v: nat)
    ensures v < 64
  {
    i1 % 16 * 4 + i2 / 64
  }

  function Fourth(i2: Byte): (v: nat)
    ensures v < 64
  {
    i2 % 64
  }

  predicate AllPadding(s: seq<Byte>) {
    forall i :: 0 <= i < |s| ==> s[i] == PAD
  }

  /** What is left of the input decodes to, with `bits` bits of `last` still unused. */
  function Decoded(s: seq<Byte>, bits: nat, last: nat, a: Alphabet, loose: bool): Option<seq<Byte>>
    requires bits in {0, 2, 4, 6} && last < 64
    decreases |s|
  {
    if s == [] then Some([])
    else if s[0] == PAD then if loose || AllPadding(s[1..]) then Some([]) else None
    else
      var (part, b) :- Value(a, s[0]);
      if bits + 6 >= 8 then
        var rest :- Decoded(s[1..], bits - 2, part, b, loose);
        Some([Completed(last, bits, part)] + rest)
      else Decoded(s[1..], bits + 6, part, b, loose)
  }

  // ----- the loops

  method Encode(input: seq<Byte>, urlSafe: bool) returns (out: seq<Byte>)
    ensures out == Encoded(input, urlSafe)
  {
    out := [];
    var i := 0;
    assert input[0..] == input;
    while i < |input|
      invariant 0 <= i <= |input|
      invariant out + Encoded(input[i..], urlSafe) == Encoded(input, urlSafe)
      decreases |input| - i
    {
      var group, n := EncodeGroup(input, i, urlSafe);
      Associative(out, group, Encoded(input[i + n..], urlSafe));
      out := out + group;
      i := i + n;
    }
    assert input[i..] == [];
  }

  /** Up to three bytes, padded to four characters. */
  method EncodeGroup(input: seq<Byte>, i: nat, urlSafe: bool) returns (group: seq<Byte>, n: nat)
    requires i < |input|
    ensures 0 < n <= |input| - i && Encoded(input[i..], urlSafe) == group + Encoded(input[i + n..], urlSafe)
  {
    var rest := input[i..];
    var i0 := input[i];
    group := [Digit(i0 / 4, urlSafe)];
    if i + 1 == |input| {
      group := group + [Digit(i0 % 4 * 16, urlSafe)];
      group := group + [PAD];
      group := group + [PAD];
      assert input[i + 1..] == [];
      return group, 1;
    }
    var i1 := input[i + 1];
    group := group + [Digit(i0 % 4 * 16 + i1 / 16, urlSafe)];
    if i + 2 == |input| {
      group := group + [Digit(i1 % 16 * 4, urlSafe)];
      group := group + [PAD];
      assert input[i + 2..] == [];
      return group, 2;
    }
    var i2 := input[i + 2];
    group := group + [Digit(i1 % 16 * 4 + i2 / 64, urlSafe)];
    group := group + [Digit(i2 % 64, urlSafe)];
    n := 3;
    assert rest[3..] == input[i + 3..];
  }

  // ----- sizes

  lemma {:induction false} EncodedSize(s: seq<Byte>, urlSafe: bool)
    ensures |Encoded(s, urlSafe)| == RequiredEncodeSize(|s|)
    decreases |s|
  {
    if |s| > 2 {
      EncodedSize(s[3..], urlSafe);
      ThreeLess(|s|);
    }
  }

  lemma ThreeLess(n: nat)
    requires n >= 3
    ensures n / 3 == (n - 3) / 3 + 1 && n % 3 == (n - 3) % 3
  {
  }

  lemma {:induction false} DecodedSize(s: seq<Byte>, bits: nat, last: nat, a: Alphabet, loose: bool)
    requires bits in {0, 2, 4, 6} && last < 64
    ensures var r := Decoded(s, bits, last, a, loose); r.Some? ==> 8 * |r.value| <= bits + 6 * |s|
    decreases |s|
  {
    if s != [] && s[0] != PAD && Value(a, s[0]).Some? {
      var (part, b) := Value(a, s[0]).value;
      DecodedSize(s[1..], if bits + 6 >= 8 then bits - 2 else bits + 6, part, b, loose);
    }
  }

  lemma DecodedFits(s: seq<Byte>, a: Alphabet, loose: bool)
    ensures var r := Decoded(s, 0, 0, a, loose); r.Some? ==> |r.value| <= MaxDecodeSize(|s|)
  {
    DecodedSize(s, 0, 0, a, loose);
  }

  // ----- the round trip

  /** An alphabet that reads what the given form writes. */
  predicate Reads(a: Alphabet, urlSafe: bool) {
    if urlSafe then a != Standard else a != UrlSafe
  }

  lemma DigitReads(v: nat, urlSafe: bool, a: Alphabet)
    requires v < 64 && Reads(a, urlSafe)
    ensures Digit(v, urlSafe) != PAD
    ensures var r := Value(a, Digit(v, urlSafe)); r.Some? && r.value.0 == v && Reads(r.value.1, urlSafe)
  {
  }

  lemma FirstByte(i0: Byte, i1: Byte)
    ensures Completed(First(i0), 6, Second(i0, i1)) == i0
  {
  }

  lemma SecondByte(i0: Byte, i1: Byte, i2: Byte)
    ensures Completed(Second(i0, i1), 4, Third(i1, i2)) == i1
  {
    By256(i0 % 4, 16 * (i1 / 16));
    assert Second(i0, i1) * 16 == 256 * (i0 % 4) + 16 * (i1 / 16);
    assert Third(i1, i2) / 4 == i1 % 16;
  }

  lemma ThirdByte(i1: Byte, i2: Byte)
    ensures Completed(Third(i1, i2), 2, Fourth(i2)) == i2
  {
  }

  /** One character read while a whole number of bytes is complete, or with bits left over. */
  lemma DecodedStep(s: seq<Byte>, bits: nat, last: nat, a: Alphabet, loose: bool, v: nat, urlSafe: bool) returns (b: Alphabet)
    requires bits in {0, 2, 4, 6} && last < 64 && v < 64 && Reads(a, urlSafe)
    requires s != [] && s[0] == Digit(v, urlSafe)
    ensures Reads(b, urlSafe)
    ensures Decoded(s, bits, last, a, loose) ==
      if bits == 0 then Decoded(s[1..], 6, v, b, loose)
      else Prepend(Completed(last, bits, v), Decoded(s[1..], bits - 2, v, b, loose))
  {
    DigitReads(v, urlSafe, a);
    b := Value(a, s[0]).value.1;
  }

  /** Two characters complete the first byte. */
  lemma DecodedTwoDigits(i0: Byte, i1: Byte, tail: seq<Byte>, a: Alphabet, last: nat, urlSafe: bool, loose: bool) returns (b: Alphabet)
    requires Reads(a, urlSafe) && last < 64
    ensures Reads(b, urlSafe)
    ensures Decoded([Digit(First(i0), urlSafe)] + ([Digit(Second(i0, i1), urlSafe)] + tail), 0, last, a, loose) ==
      Prepend(i0, Decoded(tail, 4, Second(i0, i1), b, loose))
  {
    var s1 := [Digit(Second(i0, i1), urlSafe)] + tail;
    var s0 := [Digit(First(i0), urlSafe)] + s1;
    ConsTail(Digit(First(i0), urlSafe), s1);
    ConsTail(Digit(Second(i0, i1), urlSafe), tail);
    var b0 := DecodedStep(s0, 0, last, a, loose, First(i0), urlSafe);
    b := DecodedStep(s1, 6, First(i0), b0, loose, Second(i0, i1), urlSafe);
    FirstByte(i0, i1);
  }

  /** Two more complete the second and the third. */
  lemma DecodedLastDigits(i0: Byte, i1: Byte, i2: Byte, tail: seq<Byte>, a: Alphabet, urlSafe: bool, loose: bool) returns (b: Alphabet)
    requires Reads(a, urlSafe)
    ensures Reads(b, urlSafe)
    ensures Decoded([Digit(Third(i1, i2), urlSafe)] + ([Digit(Fourth(i2), urlSafe)] + tail), 4, Second(i0, i1), a, loose) ==
      Prepend(i1, Prepend(i2, Decoded(tail, 0, Fourth(i2), b, loose)))
  {
    var s1 := [Digit(Fourth(i2), urlSafe)] + tail;
    var s0 := [Digit(Third(i1, i2), urlSafe)] + s1;
    ConsTail(Digit(Third(i1, i2), urlSafe), s1);
    ConsTail(Digit(Fourth(i2), urlSafe), tail);
    var b0 := DecodedStep(s0, 4, Second(i0, i1), a, loose, Third(i1, i2), urlSafe);
    b := DecodedStep(s1, 2, Third(i1, i2), b0, loose, Fourth(i2), urlSafe);
    SecondByte(i0, i1, i2);
    ThirdByte(i1, i2);
  }

  lemma ConsTail<T>(x: T, s: seq<T>)
    ensures ([x] + s)[0] == x && ([x] + s)[1..] == s
  {
  }

  lemma DecodedPadding(s: seq<Byte>, bits: nat, last: nat, a: Alphabet, loose: bool)
    requires bits in {0, 2, 4, 6} && last < 64 && s != [] && AllPadding(s)
    ensures Decoded(s, bits, last, a, loose) == Some([])
  {
  }

  lemma PrependTwo(i0: Byte, i1: Byte)
    ensures Prepend(i0, Prepend(i1, Some([]))) == Some([i0, i1]) && Prepend(i0, Some([])) == Some([i0])
  {
    assert [i1] + [] == [i1] && [i0] + [i1] == [i0, i1] && [i0] + [] == [i0];
  }

  lemma DecodedTwo(i0: Byte, i1: Byte, a: Alphabet, last: nat, urlSafe: bool, loose: bool)
    requires Reads(a, urlSafe) && last < 64
    ensures Decoded([Digit(First(i0), urlSafe)] + ([Digit(Second(i0, i1), urlSafe)] + ([Digit(Third(i1, 0), urlSafe)] + [PAD])), 0, last, a, loose) ==
      Some([i0, i1])
  {
    var tail := [Digit(Third(i1, 0), urlSafe)] + [PAD];
    var b1 := DecodedTwoDigits(i0, i1, tail, a, last, urlSafe, loose);
    var b2 := DecodedStep(tail, 4, Second(i0, i1), b1, loose, Third(i1, 0), urlSafe);
    ConsTail(Digit(Third(i1, 0), urlSafe), [PAD]);
    DecodedPadding([PAD], 2, Third(i1, 0), b2, loose);
    SecondByte(i0, i1, 0);
    PrependTwo(i0, i1);
  }

  lemma DecodedOne(i0: Byte, a: Alphabet, last: nat, urlSafe: bool, loose: bool)
    requires Reads(a, urlSafe) && last < 64
    ensures Decoded([Digit(First(i0), urlSafe)] + ([Digit(Second(i0, 0), urlSafe)] + [PAD, PAD]), 0, last, a, loose) == Some([i0])
  {
    var b := DecodedTwoDigits(i0, 0, [PAD, PAD], a, last, urlSafe, loose);
    DecodedPadding([PAD, PAD], 4, Second(i0, 0), b, loose);
    PrependTwo(i0, 0);
  }

  lemma DecodedThree(i0: Byte, i1: Byte, i2: Byte, tail: seq<Byte>, rest: seq<Byte>, a: Alphabet, last: nat, urlSafe: bool, loose: bool)
    returns (b: Alphabet)
    requires Reads(a, urlSafe) && last < 64
    ensures Reads(b, urlSafe)
    ensures Decoded(tail, 0, Fourth(i2), b, loose) == Some(rest) ==>
      Decoded([Digit(First(i0), urlSafe)] + ([Digit(Second(i0, i1), urlSafe)] + ([Digit(Third(i1, i2), urlSafe)] + ([Digit(Fourth(i2), urlSafe)] + tail))),
              0, last, a, loose) == Some([i0, i1, i2] + rest)
  {
    var second := [Digit(Third(i1, i2), urlSafe)] + ([Digit(Fourth(i2), urlSafe)] + tail);
    var b1 := DecodedTwoDigits(i0, i1, second, a, last, urlSafe, loose);
    b := DecodedLastDigits(i0, i1, i2, tail, b1, urlSafe, loose);
    assert [i0] + ([i1] + ([i2] + rest)) == [i0, i1, i2] + rest;
  }

  lemma Four<T>(w: T, x: T, y: T, z: T, tail: seq<T>)
    ensures [w] + ([x] + ([y] + ([z] + tail))) == [w, x, y, z] + tail
    ensures [w] + ([x] + ([y] + [z])) == [w, x, y, z]
    ensures [w] + ([x] + [y, z]) == [w, x, y, z]
  {
  }

  /** Decoding undoes encoding, with either alphabet or with detection, padding checked or not. */
  lemma {:induction false} RoundTrip(s: seq<Byte>, a: Alphabet, last: nat, urlSafe: bool, loose: bool)
    requires Reads(a, urlSafe) && last < 64
    ensures Decoded(Encoded(s, urlSafe), 0, last, a, loose) == Some(s)
    decreases |s|
  {
    if |s| == 1 {
      assert s == [s[0]];
      DecodedOne(s[0], a, last, urlSafe, loose);
      Four(Digit(First(s[0]), urlSafe), Digit(Second(s[0], 0), urlSafe), PAD, PAD, []);
    } else if |s| == 2 {
      assert s == [s[0], s[1]];
      DecodedTwo(s[0], s[1], a, last, urlSafe, loose);
      Four(Digit(First(s[0]), urlSafe), Digit(Second(s[0], s[1]), urlSafe), Digit(Third(s[1], 0), urlSafe), PAD, []);
    } else if |s| > 2 {
      var tail := Encoded(s[3..], urlSafe);
      var b := DecodedThree(s[0], s[1], s[2], tail, s[3..], a, last, urlSafe, loose);
      RoundTrip(s[3..], b, Fourth(s[2]), urlSafe, loose);
      Four(Digit(First(s[0]), urlSafe), Digit(Second(s[0], s[1]), urlSafe), Digit(Third(s[1], s[2]), urlSafe), Digit(Fourth(s[2]), urlSafe), tail);
      assert s == [s[0], s[1], s[2]] + s[3..];
    }
  }

  // ----- the alphabets and the bits, as the standard has them

  const CAPITALS: string := "ABCDEFGHIJKLMNOPQRSTUVWXYZ"
  const SMALLS: string := "abcdefghijklmnopqrstuvwxyz"
  const FIGURES: string := "0123456789"

  /** The 64 characters in order. */
  function Characters(urlSafe: bool): (s: string)
    ensures |s| == 64
  {
    CAPITALS + SMALLS + FIGURES + if urlSafe then "-_" else "+/"
  }

  /** A value is written as its character in the table of the standard. */
  lemma DigitIsInTable(v: nat, urlSafe: bool)
    requires v < 64
    ensures Digit(v, urlSafe) == Characters(urlSafe)[v] as int
  {
    if v < 26 {
      Capital(v);
    } else if v < 52 {
      Small(v - 26);
    } else if v < 62 {
      Figure(v - 52);
    }
  }

  lemma Capital(v: nat)
    requires v < 26
    ensures CAPITALS[v] as int == 65 + v
  {
  }

  lemma Small(v: nat)
    requires v < 26
    ensures SMALLS[v] as int == 97 + v
  {
  }

  lemma Figure(v: nat)
    requires v < 10
    ensures FIGURES[v] as int == 48 + v
  {
  }

  /** `c` stands at place `v` of a table that may still be meant. */
  predicate InTable(a: Alphabet, c: Byte, urlSafe: bool, v: nat) {
    v < 64 && (if urlSafe then a != Standard else a != UrlSafe) && Characters(urlSafe)[v] as int == c
  }

  /** A character is read as its place, and refused if it has none; the last two of a table settle which one is meant. */
  lemma ValueIsPlace(a: Alphabet, c: Byte)
    ensures Value(a, c).Some? ==> exists urlSafe :: InTable(a, c, urlSafe, Value(a, c).value.0)
    ensures Value(a, c).None? ==> forall urlSafe, v :: !InTable(a, c, urlSafe, v)
    ensures Value(a, c).Some? ==>
      Value(a, c).value.1 == if c == 43 || c == 47 then Standard else if c == 45 || c == 95 then UrlSafe else a
  {
    if Value(a, c).Some? {
      var v := Value(a, c).value.0;
      DigitIsInTable(v, false);
      DigitIsInTable(v, true);
      assert InTable(a, c, false, v) || InTable(a, c, true, v);
    }
    forall urlSafe, v | InTable(a, c, urlSafe, v)
      ensures Value(a, c).Some?
    {
      DigitIsInTable(v, urlSafe);
    }
  }

  function ByteAt(s: seq<Byte>, i: nat): Byte {
    if i < |s| then s[i] else 0
  }

  /** Three bytes, with zeros behind the last one, as a number of 24 bits. */
  function Number(s: seq<Byte>, q: nat): nat {
    0x10000 * ByteAt(s, 3 * q) + 0x100 * ByteAt(s, 3 * q + 1) + ByteAt(s, 3 * q + 2)
  }

  /** Six of them, the highest first. */
  function SixOf(n: nat, r: nat): (v: nat)
    requires r < 4
    ensures v < 64
  {
    if r == 0 then n / 0x40000 % 64 else if r == 1 then n / 0x1000 % 64 else if r == 2 then n / 0x40 % 64 else n % 64
  }

  lemma SixAre(i0: Byte, i1: Byte, i2: Byte)
    ensures var n := 0x10000 * i0 + 0x100 * i1 + i2;
      SixOf(n, 0) == First(i0) && SixOf(n, 1) == Second(i0, i1) && SixOf(n, 2) == Third(i1, i2) && SixOf(n, 3) == Fourth(i2)
  {
    var n := 0x10000 * i0 + 0x100 * i1 + i2;
    By40000(i0 / 4, 0x10000 * (i0 % 4) + 0x100 * i1 + i2);
    By40(0, i0 / 4);
    SixSecond(i0, i1, i2);
    SixThird(i0, i1, i2);
    By40(0x400 * i0 + 4 * i1 + i2 / 64, i2 % 64);
  }

  lemma SixSecond(i0: Byte, i1: Byte, i2: Byte)
    ensures (0x10000 * i0 + 0x100 * i1 + i2) / 0x1000 % 64 == i0 % 4 * 16 + i1 / 16
  {
    By1000(16 * i0 + i1 / 16, 0x100 * (i1 % 16) + i2);
    By40(i0 / 4, 16 * (i0 % 4) + i1 / 16);
  }

  lemma SixThird(i0: Byte, i1: Byte, i2: Byte)
    ensures (0x10000 * i0 + 0x100 * i1 + i2) / 0x40 % 64 == i1 % 16 * 4 + i2 / 64
  {
    By40(0x400 * i0 + 4 * i1 + i2 / 64, i2 % 64);
    By40(16 * i0 + i1 / 16, 4 * (i1 % 16) + i2 / 64);
  }

  lemma By40000(q: nat, r: nat)
    requires r < 0x40000
    ensures (0x40000 * q + r) / 0x40000 == q
  {
  }

  lemma By1000(q: nat, r: nat)
    requires r < 0x1000
    ensures (0x1000 * q + r) / 0x1000 == q
  {
  }

  lemma By40(q: nat, r: nat)
    requires r < 0x40
    ensures (0x40 * q + r) / 0x40 == q && (0x40 * q + r) % 0x40 == r
  {
  }

  function Sixth(i0: Byte, i1: Byte, i2: Byte, k: nat): (v: nat)
    requires k < 4
    ensures v < 64
  {
    if k == 0 then First(i0) else if k == 1 then Second(i0, i1) else if k == 2 then Third(i1, i2) else Fourth(i2)
  }

  lemma SixthIs(s: seq<Byte>, k: nat)
    requires k < 4
    ensures SixOf(Number(s, 0), k) == Sixth(ByteAt(s, 0), ByteAt(s, 1), ByteAt(s, 2), k)
  {
    SixAre(ByteAt(s, 0), ByteAt(s, 1), ByteAt(s, 2));
  }

  lemma FirstGroupAt(s: seq<Byte>, urlSafe: bool, k: nat, v: nat)
    requires k < 4 && k < |Encoded(s, urlSafe)| && v == Sixth(ByteAt(s, 0), ByteAt(s, 1), ByteAt(s, 2), k)
    ensures Encoded(s, urlSafe)[k] == if 6 * k < 8 * |s| then Digit(v, urlSafe) else PAD
  {
  }

  /** The character for six of 24 bits, by `DigitIsInTable` the one in the table. */
  function Sextet(n: nat, r: nat, urlSafe: bool): Byte
    requires r < 4
  {
    Digit(SixOf(n, r), urlSafe)
  }

  lemma SextetIs(s: seq<Byte>, urlSafe: bool, k: nat)
    requires k < 4
    ensures Sextet(Number(s, 0), k, urlSafe) == Digit(Sixth(ByteAt(s, 0), ByteAt(s, 1), ByteAt(s, 2), k), urlSafe)
  {
    SixthIs(s, k);
  }

  lemma FirstAreSextets(s: seq<Byte>, urlSafe: bool, k: nat)
    requires k < 4 && k < |Encoded(s, urlSafe)|
    ensures Encoded(s, urlSafe)[k] == if 6 * k < 8 * |s| then Sextet(Number(s, 0), k, urlSafe) else '=' as int
  {
    SextetIs(s, urlSafe, k);
    FirstGroupAt(s, urlSafe, k, Sixth(ByteAt(s, 0), ByteAt(s, 1), ByteAt(s, 2), k));
  }

  lemma LaterAt(s: seq<Byte>, urlSafe: bool, k: nat)
    requires 4 <= k < |Encoded(s, urlSafe)|
    ensures |s| > 3 && k - 4 < |Encoded(s[3..], urlSafe)| && Encoded(s, urlSafe)[k] == Encoded(s[3..], urlSafe)[k - 4]
  {
  }

  /** Character `r` of group `q`: six bits of the input, or padding where there are none. */
  predicate Shows(s: seq<Byte>, urlSafe: bool, text: seq<Byte>, q: nat, r: nat)
    requires r < 4
  {
    4 * q + r < |text| && text[4 * q + r] == if 6 * (4 * q + r) < 8 * |s| then Sextet(Number(s, q), r, urlSafe) else '=' as int
  }

  lemma LaterShows(s: seq<Byte>, urlSafe: bool, text: seq<Byte>, tail: seq<Byte>, q: nat, r: nat)
    requires |s| > 3 && q > 0 && r < 4 && Shows(s[3..], urlSafe, tail, q - 1, r)
    requires 4 * q + r < |text| && text[4 * q + r] == tail[4 * q + r - 4]
    ensures Shows(s, urlSafe, text, q, r)
  {
    LaterGroup(s, q);
  }

  lemma {:induction false} EncodedAt(s: seq<Byte>, urlSafe: bool, q: nat, r: nat)
    requires r < 4 && 4 * q + r < |Encoded(s, urlSafe)|
    ensures Shows(s, urlSafe, Encoded(s, urlSafe), q, r)
    decreases q
  {
    if q == 0 {
      FirstAreSextets(s, urlSafe, r);
    } else {
      LaterAt(s, urlSafe, 4 * q + r);
      EncodedAt(s[3..], urlSafe, q - 1, r);
      LaterShows(s, urlSafe, Encoded(s, urlSafe), Encoded(s[3..], urlSafe), q, r);
    }
  }

  lemma LaterGroup(s: seq<Byte>, q: nat)
    requires |s| >= 3 && q > 0
    ensures Number(s[3..], q - 1) == Number(s, q)
  {
  }

  // ----- what decoding gives, or refuses

  /** The values of the characters in front of the padding; None if one of them cannot be read. */
  function Values(s: seq<Byte>, a: Alphabet): Option<seq<nat>>
    decreases |s|
  {
    if s == [] || s[0] == '=' as int then Some([])
    else
      var (v, b) :- Value(a, s[0]);
      var rest :- Values(s[1..], b);
      Some([v] + rest)
  }

  /** From the first padding on there is nothing else. */
  predicate PaddedWell(s: seq<Byte>) {
    forall i, j :: 0 <= i < j < |s| && s[i] == '=' as int ==> s[j] == '=' as int
  }

  function SixAt(vs: seq<nat>, i: nat): nat {
    if i < |vs| then vs[i] else 0
  }

  /** Four values, with zeros behind the last one, as a number of 24 bits. */
  function Packed(vs: seq<nat>, q: nat): nat {
    0x40000 * SixAt(vs, 4 * q) + 0x1000 * SixAt(vs, 4 * q + 1) + 0x40 * SixAt(vs, 4 * q + 2) + SixAt(vs, 4 * q + 3)
  }

  /** The whole bytes among the bits. */
  function BytesOf(vs: seq<nat>): (r: seq<Byte>)
    ensures |r| == 6 * |vs| / 8
  {
    seq(6 * |vs| / 8, j requires 0 <= j => EightOf(Packed(vs, j / 3), j % 3))
  }

  /** Eight of 24 bits, the highest first. */
  function EightOf(n: nat, r: nat): Byte
    requires r < 3
  {
    if r == 0 then n / 0x10000 % 256 else if r == 1 then n / 0x100 % 256 else n % 256
  }

  lemma PaddedTail(s: seq<Byte>)
    requires s != [] && s[0] != '=' as int
    ensures PaddedWell(s) <==> PaddedWell(s[1..])
  {
    if PaddedWell(s[1..]) {
      forall i, j | 0 <= i < j < |s| && s[i] == '=' as int
        ensures s[j] == '=' as int
      {
        assert s[1..][i - 1] == '=' as int && s[1..][j - 1] == s[j];
      }
    }
    if PaddedWell(s) {
      forall i, j | 0 <= i < j < |s[1..]| && s[1..][i] == '=' as int
        ensures s[1..][j] == '=' as int
      {
        assert s[i + 1] == '=' as int && s[j + 1] == s[1..][j];
      }
    }
  }

  lemma PaddedFront(s: seq<Byte>)
    requires s != [] && s[0] == '=' as int
    ensures PaddedWell(s) <==> AllPadding(s[1..])
  {
    if AllPadding(s[1..]) {
      assert forall j :: 1 <= j < |s| ==> s[j] == s[1..][j - 1];
    }
  }

  /** Values behind others, as they are read. */
  predicate AllSix(vs: seq<nat>) {
    forall i :: 0 <= i < |vs| ==> vs[i] < 64
  }

  /** The state in which the decoder is behind the values `vs`, fewer than four: how many bits it holds, and of which value. */
  function HeldBits(n: nat): nat
    requires n < 4
  {
    [0, 6, 4, 2][n]
  }

  /** Bytes completed by the first `n` of four values. */
  function Done(vs: seq<nat>): (r: seq<Byte>)
    requires |vs| < 4 && AllSix(vs)
    ensures |r| == 6 * |vs| / 8
  {
    if |vs| < 2 then []
    else if |vs| == 2 then [Completed(vs[0], 6, vs[1])]
    else [Completed(vs[0], 6, vs[1]), Completed(vs[1], 4, vs[2])]
  }

  lemma DoneAre(vs: seq<nat>)
    requires |vs| < 4 && AllSix(vs)
    ensures BytesOf(vs) == Done(vs)
  {
    if |vs| >= 2 {
      ThreeBytes(vs[0], vs[1], SixAt(vs, 2), SixAt(vs, 3));
    }
  }

  lemma HighByte(v0: nat, v1: nat, low: nat)
    requires v0 < 64 && v1 < 64 && low < 0x1000
    ensures (0x40000 * v0 + 0x1000 * v1 + low) / 0x10000 % 256 == Completed(v0, 6, v1)
  {
    By10000(4 * v0 + v1 / 16, 0x1000 * (v1 % 16) + low);
  }

  lemma MiddleByte(v0: nat, v1: nat, v2: nat, v3: nat)
    requires v0 < 64 && v1 < 64 && v2 < 64 && v3 < 64
    ensures (0x40000 * v0 + 0x1000 * v1 + 0x40 * v2 + v3) / 0x100 % 256 == Completed(v1, 4, v2)
  {
    var c, d := v1 / 16, v1 % 16;
    var low := 16 * d + v2 / 4;
    By256(256 * (4 * v0 + c) + low, 0x40 * (v2 % 4) + v3);
    By256(4 * v0 + c, low);
    By256(c, 16 * d);
  }

  lemma By10000(q: nat, r: nat)
    requires r < 0x10000
    ensures (0x10000 * q + r) / 0x10000 == q
  {
  }

  lemma By256(q: nat, r: nat)
    requires r < 256
    ensures (256 * q + r) / 256 == q && (256 * q + r) % 256 == r
  {
  }

  lemma LowByte(v0: nat, v1: nat, v2: nat, v3: nat)
    requires v0 < 64 && v1 < 64 && v2 < 64 && v3 < 64
    ensures (0x40000 * v0 + 0x1000 * v1 + 0x40 * v2 + v3) % 256 == Completed(v2, 2, v3)
  {
    By256(0x400 * v0 + 0x10 * v1 + v2 / 4, 0x40 * (v2 % 4) + v3);
    By256(v2 / 4, 0x40 * (v2 % 4));
  }

  lemma ThreeBytes(v0: nat, v1: nat, v2: nat, v3: nat)
    requires v0 < 64 && v1 < 64 && v2 < 64 && v3 < 64
    ensures var n := 0x40000 * v0 + 0x1000 * v1 + 0x40 * v2 + v3;
      n / 0x10000 % 256 == Completed(v0, 6, v1) && n / 0x100 % 256 == Completed(v1, 4, v2) && n % 256 == Completed(v2, 2, v3)
  {
    HighByte(v0, v1, 0x40 * v2 + v3);
    MiddleByte(v0, v1, v2, v3);
    LowByte(v0, v1, v2, v3);
  }

  lemma FourThenRest(vs: seq<nat>)
    requires |vs| >= 4 && AllSix(vs)
    ensures BytesOf(vs) == [Completed(vs[0], 6, vs[1]), Completed(vs[1], 4, vs[2]), Completed(vs[2], 2, vs[3])] + BytesOf(vs[4..])
  {
    var r := [Completed(vs[0], 6, vs[1]), Completed(vs[1], 4, vs[2]), Completed(vs[2], 2, vs[3])] + BytesOf(vs[4..]);
    ThreeBytes(vs[0], vs[1], vs[2], vs[3]);
    assert |BytesOf(vs)| == |r|;
    forall j | 3 <= j < |r|
      ensures BytesOf(vs)[j] == r[j]
    {
      LaterByte(vs, j);
    }
  }

  lemma LaterByte(vs: seq<nat>, j: nat)
    requires |vs| >= 4 && j >= 3
    ensures (j - 3) % 3 == j % 3 && Packed(vs, j / 3) == Packed(vs[4..], (j - 3) / 3)
  {
    assert (j - 3) / 3 == j / 3 - 1;
  }

  /** What one more value completes. */
  function Completes(held: seq<nat>, v: nat): (r: seq<Byte>)
    requires |held| < 4 && AllSix(held) && v < 64
  {
    if held == [] then [] else [Completed(held[|held| - 1], HeldBits(|held|), v)]
  }

  lemma DecodedReads(s: seq<Byte>, bits: nat, last: nat, a: Alphabet, loose: bool, v: nat, b: Alphabet)
    requires bits in {0, 2, 4, 6} && last < 64 && s != [] && s[0] != PAD && Value(a, s[0]) == Some((v, b))
    ensures Decoded(s, bits, last, a, loose) ==
      if bits == 0 then Decoded(s[1..], 6, v, b, loose)
      else Behind([Completed(last, bits, v)], Decoded(s[1..], bits - 2, v, b, loose))
  {
  }

  lemma DecodedOneMore(s: seq<Byte>, held: seq<nat>, a: Alphabet, loose: bool, last: nat, v: nat, b: Alphabet)
    requires |held| < 4 && AllSix(held) && last < 64 && (held != [] ==> last == held[|held| - 1])
    requires s != [] && s[0] != PAD && Value(a, s[0]) == Some((v, b))
    ensures Decoded(s, HeldBits(|held|), last, a, loose) ==
      Behind(Completes(held, v), Decoded(s[1..], HeldBits((|held| + 1) % 4), v, b, loose))
  {
    DecodedReads(s, HeldBits(|held|), last, a, loose, v, b);
    NothingBehind(Decoded(s[1..], 6, v, b, loose));
  }

  lemma NothingBehind(rest: Option<seq<Byte>>)
    ensures Behind([], rest) == rest
  {
    if rest.Some? {
      assert [] + rest.value == rest.value;
    }
  }

  lemma BehindBoth(out: seq<Byte>, more: seq<Byte>, rest: Option<seq<Byte>>)
    ensures Behind(out, Behind(more, rest)) == Behind(out + more, rest)
  {
    if rest.Some? {
      Associative(out, more, rest.value);
    }
  }

  lemma DoneMore(held: seq<nat>, v: nat)
    requires |held| < 3 && AllSix(held) && v < 64
    ensures AllSix(held + [v]) && Done(held + [v]) == Done(held) + Completes(held, v)
  {
  }

  lemma DoneFour(held: seq<nat>, v: nat, vs: seq<nat>)
    requires |held| == 3 && AllSix(held) && v < 64 && AllSix(vs)
    ensures BytesOf(held + ([v] + vs)) == Done(held) + Completes(held, v) + BytesOf(vs)
  {
    var all := held + ([v] + vs);
    assert all[4..] == vs;
    FourThenRest(all);
  }

  /** What decoding gives when `held` are the values of the current four that have been read. */
  predicate Gives(s: seq<Byte>, held: seq<nat>, a: Alphabet, loose: bool, last: nat)
    requires |held| < 4 && AllSix(held) && last < 64
  {
    var vs := Values(s, a);
    Behind(Done(held), Decoded(s, HeldBits(|held|), last, a, loose)) ==
    if vs.Some? && (loose || PaddedWell(s)) then Some(BytesOf(held + vs.value)) else None
  }

  lemma {:induction false} ValuesAreSix(s: seq<Byte>, a: Alphabet)
    ensures Values(s, a).Some? ==> AllSix(Values(s, a).value)
    decreases |s|
  {
    if s != [] && s[0] != PAD && Value(a, s[0]).Some? {
      ValuesAreSix(s[1..], Value(a, s[0]).value.1);
    }
  }

  lemma ValuesNext(s: seq<Byte>, a: Alphabet, v: nat, b: Alphabet)
    requires s != [] && s[0] != PAD && Value(a, s[0]) == Some((v, b))
    ensures Values(s, a) == Prepend(v, Values(s[1..], b))
  {
  }

  lemma NextHeld(s: seq<Byte>, held: seq<nat>, a: Alphabet, loose: bool, last: nat, v: nat, b: Alphabet)
    requires |held| < 3 && AllSix(held) && last < 64 && (held != [] ==> last == held[|held| - 1])
    requires s != [] && s[0] != PAD && Value(a, s[0]) == Some((v, b)) && AllSix(held + [v])
    requires Gives(s[1..], held + [v], b, loose, v)
    ensures Gives(s, held, a, loose, last)
  {
    ValuesNext(s, a, v, b);
    PaddedTail(s);
    StepHeld(s, held, a, loose, last, v, b);
    MoreHeld(held, v, Values(s[1..], b));
  }

  lemma MoreHeld(held: seq<nat>, v: nat, vs: Option<seq<nat>>)
    ensures vs.Some? ==> held + [v] + vs.value == held + ([v] + vs.value)
  {
  }

  lemma StepHeld(s: seq<Byte>, held: seq<nat>, a: Alphabet, loose: bool, last: nat, v: nat, b: Alphabet)
    requires |held| < 3 && AllSix(held) && last < 64 && (held != [] ==> last == held[|held| - 1])
    requires s != [] && s[0] != PAD && Value(a, s[0]) == Some((v, b)) && AllSix(held + [v])
    ensures Behind(Done(held), Decoded(s, HeldBits(|held|), last, a, loose)) ==
      Behind(Done(held + [v]), Decoded(s[1..], HeldBits(|held + [v]|), v, b, loose))
  {
    DecodedOneMore(s, held, a, loose, last, v, b);
    BehindBoth(Done(held), Completes(held, v), Decoded(s[1..], HeldBits(|held| + 1), v, b, loose));
    DoneMore(held, v);
  }

  lemma NextFour(s: seq<Byte>, held: seq<nat>, a: Alphabet, loose: bool, last: nat, v: nat, b: Alphabet)
    requires |held| == 3 && AllSix(held) && last == held[2]
    requires s != [] && s[0] != PAD && Value(a, s[0]) == Some((v, b))
    requires Gives(s[1..], [], b, loose, v)
    ensures Gives(s, held, a, loose, last)
  {
    var none: seq<nat> := [];
    var rest, vs := Decoded(s[1..], 0, v, b, loose), Values(s[1..], b);
    DecodedOneMore(s, held, a, loose, last, v, b);
    BehindBoth(Done(held), Completes(held, v), rest);
    PaddedTail(s);
    assert rest.Some? ==> Done(none) + rest.value == rest.value;
    if vs.Some? {
      ValuesAreSix(s[1..], b);
      assert none + vs.value == vs.value;
      DoneFour(held, v, vs.value);
    }
  }

  lemma {:induction false} DecodedFrom(s: seq<Byte>, held: seq<nat>, a: Alphabet, loose: bool, last: nat)
    requires |held| < 4 && AllSix(held) && last < 64 && (held != [] ==> last == held[|held| - 1])
    ensures Gives(s, held, a, loose, last)
    decreases |s|
  {
    if s == [] || s[0] == PAD {
      DoneAre(held);
      assert held + [] == held && Done(held) + [] == Done(held);
      if s != [] {
        PaddedFront(s);
      }
    } else if Value(a, s[0]).Some? {
      var (v, b) := Value(a, s[0]).value;
      if |held| < 3 {
        DoneMore(held, v);
        DecodedFrom(s[1..], held + [v], b, loose, v);
        NextHeld(s, held, a, loose, last, v, b);
      } else {
        DecodedFrom(s[1..], [], b, loose, v);
        NextFour(s, held, a, loose, last, v, b);
      }
    }
  }

  /** Decoding gives the whole bytes among the bits of the values, and refuses exactly what cannot be read or, unless padding does not
      matter, what is padded badly. */
  lemma DecodedIs(s: seq<Byte>, a: Alphabet, loose: bool)
    ensures var vs := Values(s, a);
      Decoded(s, 0, 0, a, loose) == if vs.Some? && (loose || PaddedWell(s)) then Some(BytesOf(vs.value)) else None
  {
    var none: seq<nat> := [];
    var r := Decoded(s, 0, 0, a, loose);
    DecodedFrom(s, none, a, loose, 0);
    assert r.Some? ==> Done(none) + r.value == r.value;
    assert Values(s, a).Some? ==> none + Values(s, a).value == Values(s, a).value;
  }

  lemma {:induction false} AllAreValues(s: seq<Byte>, a: Alphabet)
    requires Values(s, a).Some? && PAD !in s
    ensures |Values(s, a).value| == |s|
    decreases |s|
  {
    if s != [] {
      assert s[0] != PAD;
      AllAreValues(s[1..], Value(a, s[0]).value.1);
    }
  }

  /** The size promised for decoding is reached by whole groups without padding. */
  lemma DecodedSizeIsReached(s: seq<Byte>, a: Alphabet, loose: bool)
    requires PAD !in s && |s| % 4 == 0
    ensures var r := Decoded(s, 0, 0, a, loose); r.Some? ==> |r.value| == MaxDecodeSize(|s|)
  {
    DecodedIs(s, a, loose);
    if Values(s, a).Some? {
      AllAreValues(s, a);
    }
  }

  // ----- in place

  lemma DecodedNext(input: seq<Byte>, i: nat, bits: nat, last: nat, a: Alphabet, loose: bool)
    requires i < |input| && bits in {0, 2, 4, 6} && last < 64 && input[i] != PAD
    ensures Decoded(input[i..], bits, last, a, loose) ==
      match Value(a, input[i])
      case None => None
      case Some(v) =>
        if bits == 0 then Decoded(input[i + 1..], 6, v.0, v.1, loose)
        else Prepend(Completed(last, bits, v.0), Decoded(input[i + 1..], bits - 2, v.0, v.1, loose))
  {
    assert input[i..][1..] == input[i + 1..];
  }

  /** The decoder after `i` characters and `o` bytes: what it has written stays behind what it still has to read. */
  ghost predicate Going(input: seq<Byte>, buf: seq<Byte>, before: seq<Byte>, i: nat, o: nat, bits: nat, last: nat,
                        now: Alphabet, a: Alphabet, loose: bool)
  {
    && i <= |input| <= |buf| == |before| && before[..|input|] == input
    && bits in {0, 2, 4, 6} && last < 64 && 8 * o + bits == 6 * i
    && o <= i && buf[o..] == before[o..]
    && Decoded(input, 0, 0, a, loose) == Behind(buf[..o], Decoded(input[i..], bits, last, now, loose))
  }

  /** A completed byte goes where everything has been read. */
  lemma ByteWritten(input: seq<Byte>, buf: seq<Byte>, before: seq<Byte>, i: nat, o: nat, bits: nat, last: nat,
                    now: Alphabet, a: Alphabet, loose: bool, part: nat, next: Alphabet)
    requires Going(input, buf, before, i, o, bits, last, now, a, loose) && i < |input| && input[i] != PAD
    requires bits > 0 && Value(now, input[i]) == Some((part, next))
    ensures o < |buf|
    ensures Going(input, buf[o := Completed(last, bits, part)], before, i + 1, o + 1, bits - 2, part, next, a, loose)
  {
    var done := Completed(last, bits, part);
    var after := buf[o := done];
    DecodedNext(input, i, bits, last, now, loose);
    BehindPrepend(buf[..o], done, Decoded(input[i + 1..], bits - 2, part, next, loose));
    assert after[..o + 1] == buf[..o] + [done];
    RestKept(buf, before, o, done);
  }

  lemma RestKept(buf: seq<Byte>, before: seq<Byte>, o: nat, done: Byte)
    requires o < |buf| == |before| && buf[o..] == before[o..]
    ensures buf[o := done][o + 1..] == before[o + 1..]
  {
    assert buf[o..][1..] == buf[o + 1..] && before[o..][1..] == before[o + 1..];
  }

  lemma StillUnread(input: seq<Byte>, buf: seq<Byte>, before: seq<Byte>, i: nat, o: nat)
    requires o <= i < |input| <= |buf| == |before| && before[..|input|] == input && buf[o..] == before[o..]
    ensures buf[i] == input[i]
  {
    assert buf[o..][i - o] == before[o..][i - o];
  }

  /** One character that is not padding. */
  method DecodeChar(ghost input: seq<Byte>, buf: array<Byte>, ghost before: seq<Byte>, i: nat, o: nat, bits: nat, last: nat,
                    now: Alphabet, ghost a: Alphabet, ghost loose: bool)
    returns (ok: bool, o1: nat, bits1: nat, last1: nat, now1: Alphabet)
    requires Going(input, buf[..], before, i, o, bits, last, now, a, loose) && i < |input| && buf[i] != PAD
    modifies buf
    ensures !ok ==> Decoded(input, 0, 0, a, loose).None? && buf[..] == old(buf[..])
    ensures ok ==> Going(input, buf[..], before, i + 1, o1, bits1, last1, now1, a, loose)
  {
    StillUnread(input, buf[..], before, i, o);
    DecodedNext(input, i, bits, last, now, loose);
    var value := Value(now, buf[i]);
    if value.None? {
      return false, o, bits, last, now;
    }
    var (part, next) := value.value;
    if bits + 6 >= 8 {
      ByteWritten(input, buf[..], before, i, o, bits, last, now, a, loose, part, next);
      ghost var was := buf[..];
      buf[o] := Completed(last, bits, part);
      assert buf[..] == was[o := buf[o]];
      return true, o + 1, bits - 2, part, next;
    }
    return true, o, bits + 6, part, next;
  }

  /** Decoding over its own input: the result replaces the front of the buffer, and nothing unread is overwritten. */
  method DecodeInPlace(buf: array<Byte>, size: nat, a: Alphabet, loose: bool) returns (r: Option<nat>)
    requires size <= buf.Length
    modifies buf
    ensures r.None? <==> Decoded(old(buf[..size]), 0, 0, a, loose).None?
    ensures r.Some? ==> r.value <= size && buf[..r.value] == Decoded(old(buf[..size]), 0, 0, a, loose).value
    ensures r.Some? ==> buf[r.value..] == old(buf[r.value..])
  {
    ghost var input, before := buf[..size], buf[..];
    var i: nat, o: nat, bits: nat, last: nat, now := 0, 0, 0, 0, a;
    assert input[0..] == input && buf[..0] == [];
    BehindNothing(Decoded(input, 0, 0, a, loose));
    while i < size && buf[i] != PAD
      invariant Going(input, buf[..], before, i, o, bits, last, now, a, loose)
      decreases size - i
    {
      var ok;
      ok, o, bits, last, now := DecodeChar(input, buf, before, i, o, bits, last, now, a, loose);
      if !ok {
        return None;
      }
      i := i + 1;
    }
    assert buf[o..] == before[o..] && |input| == size;
    var padded := PaddingFrom(buf, size, i, o, input, before);
    DecodedRest(input, i, bits, last, now, loose);
    BehindEnd(buf[..o]);
    if i < size && !loose && !padded {
      return None;
    }
    r := Some(o);
  }

  lemma DecodedRest(input: seq<Byte>, i: nat, bits: nat, last: nat, a: Alphabet, loose: bool)
    requires i <= |input| && bits in {0, 2, 4, 6} && last < 64 && (i < |input| ==> input[i] == PAD)
    ensures Decoded(input[i..], bits, last, a, loose) == if i < |input| && !loose && !AllPadding(input[i..]) then None else Some([])
  {
    if i < |input| {
      var s := input[i..];
      assert AllPadding(s) <==> AllPadding(s[1..]) by {
        assert s == [s[0]] + s[1..];
      }
    }
  }

  /** Whether only padding is left. */
  method PaddingFrom(buf: array<Byte>, size: nat, start: nat, ghost o: nat, ghost input: seq<Byte>, ghost before: seq<Byte>) returns (padded: bool)
    requires o <= start <= size <= buf.Length == |before| && before[..size] == input && buf[o..] == before[o..]
    ensures padded <==> AllPadding(input[start..])
  {
    assert forall k :: start <= k < size ==> buf[k] == buf[o..][k - o] == before[k] == input[k];
    for k := start to size
      invariant forall j :: start <= j < k ==> input[j] == PAD
    {
      if buf[k] != PAD {
        assert input[start..][k - start] != PAD;
        return false;
      }
    }
    padded := true;
  }
}
