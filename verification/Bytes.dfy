/** Bytes, and UTF-8 as the Rust standard library validates it. */
module Bytes {
  import opened Wrappers

  type Byte = x: int | 0 <= x < 256

  function HexDigit(b: Byte): Option<nat> {
    if 48 <= b <= 57 then Some(b - 48)
    else if 65 <= b <= 70 then Some(b - 55)
    else if 97 <= b <= 102 then Some(b - 87)
    else None
  }

  const LOWER_HEX: string := "0123456789abcdef"
  const UPPER_HEX: string := "0123456789ABCDEF"

  /** A hexadecimal digit, in either case. */
  predicate HexFor(b: Byte, v: nat) {
    v < 16 && (b == LOWER_HEX[v] as int || b == UPPER_HEX[v] as int)
  }

  lemma HexDigitIs(b: Byte, v: nat)
    ensures HexDigit(b) == Some(v) <==> HexFor(b, v)
  {
  }

  predicate Continues(b: Byte) {
    0x80 <= b <= 0xBF
  }

  /** The length of the well-formed character at the front (Table 3-7 of the Unicode Standard); 0 if there is none. */
  function CharLength(s: seq<Byte>): (n: nat)
    ensures n <= |s| && n <= 4
  {
    if s == [] then 0
    else if s[0] < 0x80 then 1
    else if 0xC2 <= s[0] <= 0xDF then if |s| >= 2 && Continues(s[1]) then 2 else 0
    else if 0xE0 <= s[0] <= 0xEF then
      if |s| >= 3 && (if s[0] == 0xE0 then 0xA0 else 0x80) <= s[1] <= (if s[0] == 0xED then 0x9F else 0xBF) && Continues(s[2])
      then 3 else 0
    else if 0xF0 <= s[0] <= 0xF4 then
      if |s| >= 4 && (if s[0] == 0xF0 then 0x90 else 0x80) <= s[1] <= (if s[0] == 0xF4 then 0x8F else 0xBF)
         && Continues(s[2]) && Continues(s[3])
      then 4 else 0
    else 0
  }

  /** The code point of the character at the front. */
  function FirstChar(s: seq<Byte>): nat
    requires CharLength(s) > 0
  {
    var n := CharLength(s);
    if n == 1 then s[0]
    else if n == 2 then (s[0] as int - 0xC0) * 0x40 + (s[1] as int - 0x80)
    else if n == 3 then (s[0] as int - 0xE0) * 0x1000 + (s[1] as int - 0x80) * 0x40 + (s[2] as int - 0x80)
    else (s[0] as int - 0xF0) * 0x40000 + (s[1] as int - 0x80) * 0x1000 + (s[2] as int - 0x80) * 0x40 + (s[3] as int - 0x80)
  }

  predicate ValidUtf8(s: seq<Byte>)
    decreases |s|
  {
    s == [] || (CharLength(s) > 0 && ValidUtf8(s[CharLength(s)..]))
  }

  lemma FirstCharOfPrefix(a: seq<Byte>, b: seq<Byte>)
    requires CharLength(a) > 0
    ensures CharLength(a + b) == CharLength(a) && FirstChar(a + b) == FirstChar(a)
  {
  }

  lemma ValidTail(s: seq<Byte>)
    requires ValidUtf8(s) && s != []
    ensures CharLength(s) > 0 && ValidUtf8(s[CharLength(s)..])
  {
  }

  lemma Associative<T>(a: seq<T>, b: seq<T>, c: seq<T>)
    ensures a + b + c == a + (b + c)
  {
  }

  lemma SplitAt<T>(a: seq<T>, b: seq<T>, x: seq<T>, y: seq<T>)
    requires a + b == x + y && |x| <= |a|
    ensures a[..|x|] == x && a[|x|..] + b == y
  {
    assert a[..|x|] == (a + b)[..|x|] == (x + y)[..|x|];
    assert a[|x|..] + b == (a + b)[|x|..] == (x + y)[|x|..];
  }

  lemma SliceCons<T>(x: T, s: seq<T>, j: nat)
    requires j <= |s|
    ensures ([x] + s)[..j + 1] == [x] + s[..j] && ([x] + s)[j + 1..] == s[j..]
  {
  }

  lemma DropFront<T>(a: seq<T>, b: seq<T>)
    ensures (a + b)[|a|..] == b && (a + b)[..|a|] == a
  {
  }
}
