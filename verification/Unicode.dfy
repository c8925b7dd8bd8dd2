/** UTF-8 as section 3 of RFC 3629 lays it out, one case for each number of bytes. */
module Unicode {
  import opened Wrappers
  import opened Bytes

  /** Code points that a well-formed text may hold. */
  predicate Scalar(c: nat) {
    c < 0xD800 || 0xE000 <= c < 0x110000
  }

  /** The bits of a code point, six to a continuation byte. */
  function Encoding(c: nat): (s: seq<Byte>)
    requires c < 0x110000
    ensures 1 <= |s| <= 4
  {
    if c < 0x80 then [c]
    else if c < 0x800 then [0xC0 + c / 0x40, 0x80 + c % 0x40]
    else if c < 0x10000 then [0xE0 + c / 0x1000, 0x80 + c / 0x40 % 0x40, 0x80 + c % 0x40]
    else [0xF0 + c / 0x40000, 0x80 + c / 0x1000 % 0x40, 0x80 + c / 0x40 % 0x40, 0x80 + c % 0x40]
  }

  /** Two groups of six bits and what is above them. */
  lemma SixBits(c: nat)
    ensures c == c / 0x1000 * 0x1000 + c / 0x40 % 0x40 * 0x40 + c % 0x40
  {
    var q := c / 0x40;
    assert c / 0x1000 == q / 0x40;
  }

  lemma MoreBits(c: nat)
    ensures c / 0x1000 == c / 0x40000 * 0x40 + c / 0x1000 % 0x40
  {
    var q := c / 0x1000;
    assert c / 0x40000 == q / 0x40;
  }

  /** The bytes of a scalar value are one well-formed character, and that one. */
  lemma EncodingIsOneChar(c: nat)
    requires Scalar(c)
    ensures CharLength(Encoding(c)) == |Encoding(c)| && FirstChar(Encoding(c)) == c
  {
    SixBits(c);
    MoreBits(c);
  }

  /** Every well-formed character is the bytes of its code point, which is a scalar value. */
  lemma OneCharIsEncoding(s: seq<Byte>)
    requires CharLength(s) > 0
    ensures Scalar(FirstChar(s)) && s[..CharLength(s)] == Encoding(FirstChar(s))
  {
    var n, c := CharLength(s), FirstChar(s);
    if n == 3 {
      ThreeBytes(s[0] as int - 0xE0, s[1] as int - 0x80, s[2] as int - 0x80);
    } else if n == 4 {
      FourBytes(s[0] as int - 0xF0, s[1] as int - 0x80, s[2] as int - 0x80, s[3] as int - 0x80);
    }
  }

  lemma ThreeBytes(x: nat, y: nat, z: nat)
    requires y < 0x40 && z < 0x40
    ensures var c := x * 0x1000 + y * 0x40 + z; c / 0x1000 == x && c / 0x40 % 0x40 == y && c % 0x40 == z
  {
    var c := x * 0x1000 + y * 0x40 + z;
    assert c / 0x40 == x * 0x40 + y;
    assert c / 0x1000 == c / 0x40 / 0x40;
  }

  lemma FourBytes(w: nat, x: nat, y: nat, z: nat)
    requires x < 0x40 && y < 0x40 && z < 0x40
    ensures var c := w * 0x40000 + x * 0x1000 + y * 0x40 + z;
      c / 0x40000 == w && c / 0x1000 % 0x40 == x && c / 0x40 % 0x40 == y && c % 0x40 == z
  {
    var c := w * 0x40000 + x * 0x1000 + y * 0x40 + z;
    ThreeBytes(w * 0x40 + x, y, z);
    assert c / 0x40000 == c / 0x1000 / 0x40;
  }
}
