/** Processing backslash escapes of a string in place. */
module Escapes {
  import opened Wrappers
  import opened Bytes

  const BACKSLASH: Byte := 92

  predicate IsSpace(c: Byte) {
    c == 32 || 9 <= c <= 13
  }

  /** `strtol` on two characters in base 16, if it consumes both: two digits, or a blank or a sign and one digit. */
  function TwoCharNumber(c: Byte, d: Byte): Option<int> {
    match (HexDigit(c), HexDigit(d))
    case (Some(h), Some(l)) => Some(16 * h as int + l as int)
    case (None, Some(l)) => if IsSpace(c) || c == 43 then Some(l as int) else if c == 45 then Some(0 - l as int) else None
    case _ => None
  }

  /** What a single escaped character stands for. */
  function Simple(c: Byte): Option<Byte> {
    if c == 110 then Some(10)
    else if c == 114 then Some(13)
    else if c == 116 then Some(9)
    else if c == 39 || c == 34 || c == BACKSLASH then Some(c)
    else None
  }

  /** The first piece of `s`: what it stands for, and how many characters it takes. */
  function Piece(s: seq<Byte>): (r: (seq<Byte>, nat))
    requires s != []
    ensures 1 <= |r.0| <= r.1 <= |s|
  {
    if s[0] != BACKSLASH || |s| == 1 then ([s[0]], 1)
    else if Simple(s[1]).Some? then ([Simple(s[1]).value], 2)
    else if s[1] == 120 && |s| >= 4 && TwoCharNumber(s[2], s[3]).Some? then ([TwoCharNumber(s[2], s[3]).value % 256], 4)
    else ([BACKSLASH, s[1]], 2)
  }

  /** Left to right, on the original string. */
  function Unescaped(s: seq<Byte>): (r: seq<Byte>)
    ensures |r| <= |s|
    decreases |s|
  {
    if s == [] then [] else Piece(s).0 + Unescaped(s[Piece(s).1..])
  }

  /** One piece at `inputIdx`, written at `outputIdx`; the characters not yet read stay as they were. */
  method ProcessPiece(input: array<Byte>, inputIdx: nat, outputIdx: nat) returns (i: nat, o: nat)
    requires outputIdx <= inputIdx < input.Length
    modifies input
    ensures var (text, n) := Piece(old(input[inputIdx..]));
      && i == inputIdx + n <= input.Length && o == outputIdx + |text| <= i
      && input[..o] == old(input[..outputIdx]) + text && input[i..] == old(input[i..])
  {
    ghost var rest := input[inputIdx..];
    i, o := inputIdx, outputIdx;
    assert rest[0] == input[i];
    if input[i] == BACKSLASH && i + 1 < input.Length {
      i := i + 1;
      assert rest[1] == input[i];
      var simple := Simple(input[i]);
      if simple.Some? {
        input[o] := simple.value;
        o, i := o + 1, i + 1;
        return;
      }
      if input[i] == 120 && i + 2 < input.Length {
        assert rest[2] == input[i + 1] && rest[3] == input[i + 2];
        var val := TwoCharNumber(input[i + 1], input[i + 2]);
        if val.Some? {
          input[o] := val.value % 256;
          o, i := o + 1, i + 3;
          return;
        }
      }
      input[o] := BACKSLASH;
      o := o + 1;
      input[o] := input[i];
      o, i := o + 1, i + 1;
    } else {
      input[o] := input[i];
      o, i := o + 1, i + 1;
    }
  }

  /** The whole string; the result is the front of the buffer, of the returned length. */
  method ProcessEscapes(input: array<Byte>) returns (length: nat)
    modifies input
    ensures length <= input.Length && input[..length] == Unescaped(old(input[..]))
  {
    ghost var original := input[..];
    var inputIdx: nat := 0;
    var outputIdx: nat := 0;
    assert original[0..] == original;
    while inputIdx < input.Length
      invariant outputIdx <= inputIdx <= input.Length
      invariant input[inputIdx..] == original[inputIdx..]
      invariant input[..outputIdx] + Unescaped(original[inputIdx..]) == Unescaped(original)
      decreases input.Length - inputIdx
    {
      ghost var rest, out := original[inputIdx..], input[..outputIdx];
      ghost var n := Piece(rest).1;
      var i, o := ProcessPiece(input, inputIdx, outputIdx);
      PieceStep(out, original, inputIdx);
      assert input[..o] == out + Piece(rest).0;
      assert input[i..] == original[inputIdx..][n..];
      inputIdx, outputIdx := i, o;
    }
    length := outputIdx;
  }

  lemma PieceStep(out: seq<Byte>, original: seq<Byte>, i: nat)
    requires i < |original|
    ensures var (text, n) := Piece(original[i..]);
      out + Unescaped(original[i..]) == out + text + Unescaped(original[i + n..])
  {
    var rest := original[i..];
    var (text, n) := Piece(rest);
    assert rest[n..] == original[i + n..];
    Associative(out, text, Unescaped(rest[n..]));
  }

  /** Every byte string can be written: with each backslash doubled, processing gives it back. */
  function Doubled(s: seq<Byte>): seq<Byte> {
    if s == [] then [] else (if s[0] == BACKSLASH then [BACKSLASH, BACKSLASH] else [s[0]]) + Doubled(s[1..])
  }

  lemma {:induction false} UnescapedDoubled(s: seq<Byte>)
    ensures Unescaped(Doubled(s)) == s
    decreases |s|
  {
    if s != [] {
      UnescapedDoubled(s[1..]);
      var d, rest := Doubled(s), Doubled(s[1..]);
      if s[0] == BACKSLASH {
        assert d[..2] == [BACKSLASH, BACKSLASH] && d[2..] == rest;
        assert Piece(d) == ([BACKSLASH], 2);
      } else {
        assert d[1..] == rest && d[0] == s[0];
        assert Piece(d) == ([s[0]], 1);
      }
    }
  }

  // ----- what `strtol` makes of the two characters

  function Blanks(s: seq<Byte>): (n: nat)
    ensures n <= |s|
  {
    if s != [] && IsSpace(s[0]) then 1 + Blanks(s[1..]) else 0
  }

  function HexRun(s: seq<Byte>): (n: nat)
    ensures n <= |s| && forall i :: 0 <= i < n ==> HexDigit(s[i]).Some?
  {
    if s != [] && HexDigit(s[0]).Some? then 1 + HexRun(s[1..]) else 0
  }

  function HexNumber(s: seq<Byte>): nat
    requires forall i :: 0 <= i < |s| ==> HexDigit(s[i]).Some?
  {
    if s == [] then 0 else 16 * HexNumber(s[..|s| - 1]) + HexDigit(s[|s| - 1]).value
  }

  /** `strtol(s, &end, 16)`: blanks, a sign, `0x` before a digit, digits; the value and where it stopped. */
  function Strtol(s: seq<Byte>): (int, nat) {
    var blanks := Blanks(s);
    var signed := blanks < |s| && (s[blanks] == 43 || s[blanks] == 45);
    var start := if signed then blanks + 1 else blanks;
    var prefixed := start + 2 < |s| && s[start] == 48 && (s[start + 1] == 120 || s[start + 1] == 88) && HexDigit(s[start + 2]).Some?;
    var digits := if prefixed then start + 2 else start;
    var n := HexRun(s[digits..]);
    if n == 0 then (0, 0)
    else
      var value: int := HexNumber(s[digits..digits + n]);
      (if signed && s[blanks] == 45 then -value else value, digits + n)
  }

  lemma TwoDigitsRun(s: seq<Byte>)
    requires |s| <= 2
    ensures HexRun(s) == if s == [] || HexDigit(s[0]).None? then 0 else if |s| == 1 || HexDigit(s[1]).None? then 1 else 2
    ensures HexRun(s) == 1 ==> HexNumber(s[..1]) == HexDigit(s[0]).value
    ensures HexRun(s) == 2 ==> HexNumber(s[..2]) == 16 * HexDigit(s[0]).value + HexDigit(s[1]).value
  {
    if s != [] && HexDigit(s[0]).Some? {
      assert s[..1][..0] == [];
      if |s| == 2 {
        assert s[1..][1..] == [] && s[..2] == s && s[..2][..1] == s[..1];
      }
    }
  }

  /** The number is the one `strtol` returns, and there is one exactly if it stops behind the second character. */
  lemma StrtolOfTwo(c: Byte, d: Byte)
    ensures var (value, end) := Strtol([c, d]);
      TwoCharNumber(c, d) == if end == 2 then Some(value) else None
  {
    var s := [c, d];
    assert s[1..] == [d] && [d][1..] == [] && s[2..] == [] && s[0..] == s;
    assert Blanks([d]) == if IsSpace(d) then 1 else 0;
    TwoDigitsRun(s);
    TwoDigitsRun([d]);
    TwoDigitsRun([]);
    assert s[1..2] == [d] && [d][..1] == [d] && s[..2] == s;
  }

  /** `\x` is taken exactly before a digit that a digit, a blank or a sign precedes; only for two digits is that what was meant. */
  lemma HexEscapeTakenIff(c: Byte, d: Byte, rest: seq<Byte>)
    ensures var taken := Piece([BACKSLASH, 120, c, d] + rest).1 == 4;
      && (taken <==> HexDigit(d).Some? && (HexDigit(c).Some? || IsSpace(c) || c == 43 || c == 45))
      && (taken && HexDigit(c).Some? ==>
            Piece([BACKSLASH, 120, c, d] + rest).0 == [16 * HexDigit(c).value + HexDigit(d).value])
      && (taken && HexDigit(c).None? && c != 45 ==> Piece([BACKSLASH, 120, c, d] + rest).0 == [HexDigit(d).value])
      && (taken && c == 45 ==> Piece([BACKSLASH, 120, c, d] + rest).0 == [(256 - HexDigit(d).value) % 256])
  {
    var s := [BACKSLASH, 120, c, d] + rest;
    assert s[0] == BACKSLASH && s[1] == 120 && s[2] == c && s[3] == d;
  }

  /** A blank or a sign passes for the first digit of `\x`. */
  lemma BlankPassesForDigit()
    ensures Unescaped([BACKSLASH, 120, 32, 53]) == [5]
    ensures Unescaped([BACKSLASH, 120, 45, 49]) == [255]
  {
    var a: seq<Byte> := [BACKSLASH, 120, 32, 53];
    var b: seq<Byte> := [BACKSLASH, 120, 45, 49];
    assert Piece(a) == ([5], 4) && a[4..] == [];
    assert Piece(b) == ([255], 4) && b[4..] == [];
  }

  // ----- the table of escapes, character by character

  lemma Front(s: seq<Byte>, rest: seq<Byte>, text: seq<Byte>)
    requires s != [] && Piece(s + rest) == (text, |s|)
    ensures Unescaped(s + rest) == text + Unescaped(rest)
  {
    assert (s + rest)[|s|..] == rest;
  }

  /** Everything but a backslash stays, and so does a backslash at the end. */
  lemma OrdinaryStays(c: Byte, rest: seq<Byte>)
    ensures c != '\\' as int ==> Unescaped([c] + rest) == [c] + Unescaped(rest)
    ensures Unescaped(['\\' as int]) == ['\\' as int]
  {
    var slash: seq<Byte> := ['\\' as int];
    assert slash[1..] == [] && Unescaped(slash[1..]) == [];
    if c != '\\' as int {
      Front([c], rest, [c]);
    }
  }

  /** What a short escape stands for. */
  function Meant(letter: char): Option<Byte> {
    match letter
    case 'n' => Some(10)
    case 'r' => Some(13)
    case 't' => Some(9)
    case '\'' => Some(39)
    case '"' => Some(34)
    case '\\' => Some(92)
    case _ => None
  }

  /** Short escapes give their character; any other character keeps its backslash. */
  lemma ShortEscapes(letter: char, rest: seq<Byte>)
    requires letter < 256 as char && letter != 'x'
    ensures Unescaped(['\\' as int, letter as int] + rest) ==
      (if Meant(letter).Some? then [Meant(letter).value] else ['\\' as int, letter as int]) + Unescaped(rest)
  {
    ShortPiece(letter, rest);
    Front(['\\' as int, letter as int], rest, if Meant(letter).Some? then [Meant(letter).value] else ['\\' as int, letter as int]);
  }

  lemma ShortPiece(letter: char, rest: seq<Byte>)
    requires letter < 256 as char && letter != 'x'
    ensures Piece(['\\' as int, letter as int] + rest) ==
      (if Meant(letter).Some? then [Meant(letter).value] else ['\\' as int, letter as int], 2)
  {
    assert (['\\' as int, letter as int] + rest)[1] == letter as int;
  }

  predicate BlankOrPlus(c: Byte) {
    c in [' ' as int, 9, 10, 11, 12, 13, '+' as int]
  }

  /** The byte for two characters behind `\x`: two digits give theirs, and so does one digit behind a blank or a sign. */
  predicate GivesByte(c: Byte, d: Byte, high: nat, low: nat, b: Byte) {
    HexFor(d, low) && (
      || (HexFor(c, high) && b == 16 * high + low)
      || (BlankOrPlus(c) && b == low)
      || (c == '-' as int && b == (256 - low) % 256))
  }

  lemma NumberGiven(c: Byte, d: Byte, high: nat, low: nat, b: Byte)
    requires GivesByte(c, d, high, low, b)
    ensures TwoCharNumber(c, d).Some? && TwoCharNumber(c, d).value % 256 == b
  {
    HexDigitIs(d, low);
    HexDigitIs(c, high);
  }

  lemma NumberGives(c: Byte, d: Byte) returns (high: nat, low: nat, b: Byte)
    requires TwoCharNumber(c, d).Some?
    ensures GivesByte(c, d, high, low, b)
  {
    low := HexDigit(d).value;
    high := if HexDigit(c).Some? then HexDigit(c).value else 0;
    b := TwoCharNumber(c, d).value % 256;
    HexDigitIs(d, low);
    HexDigitIs(c, high);
  }

  lemma PieceOfNumber(s: seq<Byte>)
    requires |s| >= 2 && s[0] == '\\' as int && s[1] == 'x' as int
    ensures Piece(s) ==
      if |s| >= 4 && TwoCharNumber(s[2], s[3]).Some? then ([TwoCharNumber(s[2], s[3]).value % 256], 4)
      else (['\\' as int, 'x' as int], 2)
  {
  }

  lemma HexEscapes(c: Byte, d: Byte, high: nat, low: nat, b: Byte, rest: seq<Byte>)
    requires GivesByte(c, d, high, low, b)
    ensures Unescaped(['\\' as int, 'x' as int, c, d] + rest) == [b] + Unescaped(rest)
  {
    var s := ['\\' as int, 'x' as int, c, d];
    NumberGiven(c, d, high, low, b);
    PieceOfNumber(s + rest);
    Front(s, rest, [b]);
  }

  /** Where they give none, or fewer than two follow, the backslash and the `x` stay. */
  lemma NoHexEscape(rest: seq<Byte>)
    requires |rest| < 2 || forall high: nat, low: nat, b: Byte :: !GivesByte(rest[0], rest[1], high, low, b)
    ensures Unescaped(['\\' as int, 'x' as int] + rest) == ['\\' as int, 'x' as int] + Unescaped(rest)
  {
    if |rest| >= 2 && TwoCharNumber(rest[0], rest[1]).Some? {
      var high, low, b := NumberGives(rest[0], rest[1]);
    } else {
      NoNumberStays(rest);
    }
  }

  lemma NoNumberStays(rest: seq<Byte>)
    requires |rest| < 2 || TwoCharNumber(rest[0], rest[1]).None?
    ensures Unescaped(['\\' as int, 'x' as int] + rest) == ['\\' as int, 'x' as int] + Unescaped(rest)
  {
    var x := ['\\' as int, 'x' as int];
    PieceOfNumber(x + rest);
    Front(x, rest, x);
  }
}
