/** Every way to write a character in a literal or a class, and what it is read as. */
module GbnfSpelling {
  import opened Wrappers
  import opened Bytes
  import opened Unicode
  import opened GbnfLexer
  import opened GbnfPrinter

  // ----- as UTF-8

  /** The bytes of a text, one to a `char`. */
  function ByteText(s: seq<Byte>): (t: string)
    ensures |t| == |s| && forall i :: 0 <= i < |s| ==> t[i] as int == s[i]
  {
    seq(|s|, i requires 0 <= i < |s| => s[i] as char)
  }

  lemma Continues1(s: string, left: nat, value: nat, b: Byte)
    requires left > 0 && s != "" && s[0] as int == 0x80 + b && b < 0x40
    ensures Continuation(s, left, value) == Continuation(s[1..], left - 1, value * 64 + b)
  {
    assert (0x80 + b) % 0x40 == b;
  }

  lemma LeadByte(s: string, len: nat, high: nat, low: nat)
    requires s != "" && 1 <= len <= 4 && s[0] as int == high + low && high + low < 256
    requires high == [0, 0xC0, 0xE0, 0xF0][len - 1] && low < [0x80, 0x20, 0x10, 0x08][len - 1]
    ensures Utf8(s) == Continuation(s[1..], len - 1, low)
  {
    var first := s[0] as int;
    assert first % 256 == first;
    assert Utf8Length(first / 16) == len;
    assert first % LeadMask(len) == low;
  }

  /** One, two or three continuation bytes in a row. */
  lemma Continues2(s: string, value: nat, x: Byte, y: Byte)
    requires |s| > 1 && s[0] as int == 0x80 + x && s[1] as int == 0x80 + y && x < 0x40 && y < 0x40
    ensures Continuation(s, 2, value) == ((value * 64 + x) * 64 + y, s[2..])
  {
    Continues1(s, 2, value, x);
    Continues1(s[1..], 1, value * 64 + x, y);
    assert s[1..][1..] == s[2..];
  }

  lemma Continues3(s: string, value: nat, x: Byte, y: Byte, z: Byte)
    requires |s| > 2 && s[0] as int == 0x80 + x && s[1] as int == 0x80 + y && s[2] as int == 0x80 + z
    requires x < 0x40 && y < 0x40 && z < 0x40
    ensures Continuation(s, 3, value) == (((value * 64 + x) * 64 + y) * 64 + z, s[3..])
  {
    Continues1(s, 3, value, x);
    Continues2(s[1..], value * 64 + x, y, z);
    assert s[1..][2..] == s[3..];
  }

  lemma BehindText(s: seq<Byte>, rest: string)
    ensures var t := ByteText(s) + rest; t[|s|..] == rest && forall i :: 0 <= i < |s| ==> t[i] as int == s[i]
  {
  }

  /** The bytes of any code point, NUL and the backslash excepted, are read as that code point. */
  lemma Utf8Reads(c: nat, rest: string)
    requires 0 < c < 0x110000 && c != 92
    ensures Character(ByteText(Encoding(c)) + rest) == Some((c, rest))
  {
    var t := ByteText(Encoding(c)) + rest;
    BehindText(Encoding(c), rest);
    SixBits(c);
    MoreBits(c);
    if c < 0x80 {
      LeadByte(t, 1, 0, c);
    } else if c < 0x800 {
      LeadByte(t, 2, 0xC0, c / 0x40);
      Continues1(t[1..], 1, c / 0x40, c % 0x40);
      assert t[1..][1..] == t[2..];
    } else if c < 0x10000 {
      LeadByte(t, 3, 0xE0, c / 0x1000);
      Continues2(t[1..], c / 0x1000, c / 0x40 % 0x40, c % 0x40);
      assert t[1..][2..] == t[3..];
    } else {
      LeadByte(t, 4, 0xF0, c / 0x40000);
      Continues3(t[1..], c / 0x40000, c / 0x1000 % 0x40, c / 0x40 % 0x40, c % 0x40);
      assert t[1..][3..] == t[4..];
    }
  }

  // ----- as an escape

  const LOWER: string := "0123456789abcdef"
  const UPPER: string := "0123456789ABCDEF"

  predicate IsDigitFor(d: char, v: nat) {
    v < 16 && (d == LOWER[v] || d == UPPER[v])
  }

  lemma DigitValues(d: char, v: nat)
    requires IsDigitFor(d, v)
    ensures IsHex(d) && HexValue(d) == v
  {
  }

  /** The digits of `c`, the last one last, in either case of letter. */
  predicate HexSpells(digits: string, c: nat) {
    if digits == "" then c == 0
    else IsDigitFor(digits[|digits| - 1], c % 16) && HexSpells(digits[..|digits| - 1], c / 16)
  }

  lemma {:induction false} HexReads(digits: string, c: nat, rest: string)
    requires HexSpells(digits, c)
    ensures HexDigits(digits + rest, |digits|, 0) == Some((c, rest))
    decreases |digits|
  {
    if digits == "" {
      assert digits + rest == rest;
    } else {
      var n := |digits| - 1;
      var last := digits[n];
      DigitValues(last, c % 16);
      HexReads(digits[..n], c / 16, [last] + rest);
      assert digits + rest == digits[..n] + ([last] + rest);
      HexDigitsSnoc(digits + rest, n, 0, c / 16, last, rest);
    }
  }

  /** The letter of a short escape stands for one character. */
  predicate ShortEscape(letter: char, c: nat) {
    || (letter == 't' && c == 9) || (letter == 'n' && c == 10) || (letter == 'r' && c == 13)
    || (letter in "\\\"[]" && c == letter as int)
  }

  /** `text` is a way to write `c`. */
  predicate Spells(text: string, c: nat) {
    || (0 < c < 0x110000 && c != 92 && text == ByteText(Encoding(c)))
    || (exists letter :: text == ['\\', letter] && ShortEscape(letter, c))
    || (|text| == 4 && text[..2] == "\\x" && HexSpells(text[2..], c))
    || (|text| == 6 && text[..2] == "\\u" && HexSpells(text[2..], c))
    || (|text| == 10 && text[..2] == "\\U" && HexSpells(text[2..], c))
  }

  lemma EscapeReads(kind: char, size: nat, digits: string, c: nat, rest: string)
    requires HexSpells(digits, c) && |digits| == size
    requires (kind == 'x' && size == 2) || (kind == 'u' && size == 4) || (kind == 'U' && size == 8)
    ensures Character(['\\', kind] + digits + rest) == Some((c, rest))
  {
    var s := ['\\', kind] + digits + rest;
    assert s[0] == '\\' && s[1] == kind && s[2..] == digits + rest;
    HexReads(digits, c, rest);
  }

  /** However it is written, a character is read as itself, and nothing more is taken. */
  lemma SpelledReads(text: string, c: nat, rest: string)
    requires Spells(text, c)
    ensures text != "" && Character(text + rest) == Some((c, rest))
  {
    if 0 < c < 0x110000 && c != 92 && text == ByteText(Encoding(c)) {
      Utf8Reads(c, rest);
    } else if exists letter :: text == ['\\', letter] && ShortEscape(letter, c) {
      var letter :| text == ['\\', letter] && ShortEscape(letter, c);
      var s := text + rest;
      assert s[1] == letter && s[2..] == rest;
    } else {
      assert text == text[..2] + text[2..] && text[..2] == ['\\', text[1]];
      EscapeReads(text[1], |text| - 2, text[2..], c, rest);
    }
  }

  // ----- and what is no character

  /** The escapes there are: the letter, and how many digits follow it. */
  function DigitsBehind(letter: char): Option<nat> {
    match letter
    case 'x' => Some(2)
    case 'u' => Some(4)
    case 'U' => Some(8)
    case _ => if letter in "tnr\\\"[]" then Some(0) else None
  }

  /** Fewer hexadecimal digits than asked for. */
  predicate Short(s: string, size: nat) {
    exists i :: 0 <= i < size && !IsHex(At(s, i))
  }

  lemma {:induction false} HexFailsIff(s: string, size: nat, value: nat)
    ensures HexDigits(s, size, value).None? <==> Short(s, size)
    decreases size
  {
    if size > 0 {
      if IsHex(At(s, 0)) {
        HexFailsIff(s[1..], size - 1, value * 16 + HexValue(s[0]));
        assert forall i :: 0 <= i < size - 1 ==> At(s[1..], i) == At(s, i + 1);
        if Short(s, size) {
          var i :| 0 <= i < size && !IsHex(At(s, i));
          assert !IsHex(At(s[1..], i - 1));
        }
      } else {
        assert !IsHex(At(s, 0));
      }
    }
  }

  /** The end of the text, an unknown escape and missing digits are the errors. */
  lemma FailsIff(s: string)
    ensures Character(s).None? <==>
      || At(s, 0) == '\0'
      || (At(s, 0) == '\\' && (DigitsBehind(At(s, 1)).None? || Short(s[2..], DigitsBehind(At(s, 1)).value)))
  {
    if At(s, 0) == '\\' && DigitsBehind(At(s, 1)).Some? {
      HexFailsIff(s[2..], DigitsBehind(At(s, 1)).value, 0);
    }
  }

  /** `é` as its two bytes. */
  lemma AccentReads(rest: string)
    ensures Character([195 as char, 169 as char] + rest) == Some((233, rest))
  {
    assert Encoding(233) == [195, 169];
    assert ByteText([195, 169]) == [195 as char, 169 as char];
    Utf8Reads(233, rest);
  }
}
