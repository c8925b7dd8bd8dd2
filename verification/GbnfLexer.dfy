/** The lexical level of GBNF. A `const char *` into a NUL-terminated text is modelled by the suffix it points at. */
module GbnfLexer {
  import opened Wrappers
  import opened Decimals

  /** `pos[i]`: past the end there is the terminating NUL. */
  function At(s: string, i: nat): char {
    if i < |s| then s[i] else '\0'
  }

  predicate IsWordChar(c: char) {
    'a' <= c <= 'z' || 'A' <= c <= 'Z' || c == '-' || IsDigit(c)
  }

  /** Length of the longest prefix made of characters satisfying `p`. */
  function PrefixLength(s: string, p: char -> bool): (n: nat)
    ensures n <= |s|
    ensures forall i :: 0 <= i < n ==> p(s[i])
    ensures n < |s| ==> !p(s[n])
  {
    if s != [] && p(s[0]) then 1 + PrefixLength(s[1..], p) else 0
  }

  lemma {:induction false} PrefixLengthIs(s: string, p: char -> bool, n: nat)
    requires n <= |s|
    requires forall i :: 0 <= i < n ==> p(s[i])
    requires n < |s| ==> !p(s[n])
    ensures PrefixLength(s, p) == n
  {
    if n > 0 {
      PrefixLengthIs(s[1..], p, n - 1);
    }
  }

  method WordEnd(src: string) returns (n: nat)
    ensures n == PrefixLength(src, IsWordChar)
  {
    n := 0;
    while IsWordChar(At(src, n))
      invariant n <= |src|
      invariant forall i :: 0 <= i < n ==> IsWordChar(src[i])
      decreases |src| - n
    {
      n := n + 1;
    }
    PrefixLengthIs(src, IsWordChar, n);
  }

  method IntEnd(src: string) returns (n: nat)
    ensures n == PrefixLength(src, IsDigit)
  {
    n := 0;
    while IsDigit(At(src, n))
      invariant n <= |src|
      invariant forall i :: 0 <= i < n ==> IsDigit(src[i])
      decreases |src| - n
    {
      n := n + 1;
    }
    PrefixLengthIs(src, IsDigit, n);
  }

  predicate EndsLine(c: char) {
    c == '\0' || c == '\r' || c == '\n'
  }

  /** The rest of the text from the end of the current line on. */
  function SkipLine(s: string): (rest: string)
    ensures |rest| <= |s| && (!EndsLine(At(s, 0)) ==> |rest| < |s|)
  {
    if EndsLine(At(s, 0)) then s else SkipLine(s[1..])
  }

  predicate IsBlank(c: char, newlineOk: bool) {
    c == ' ' || c == '\t' || (newlineOk && (c == '\r' || c == '\n'))
  }

  /** What is left after blanks and `#` comments. */
  function SkipSpace(s: string, newlineOk: bool): (rest: string)
    ensures |rest| <= |s|
    decreases |s|
  {
    if IsBlank(At(s, 0), newlineOk) then SkipSpace(s[1..], newlineOk)
    else if At(s, 0) == '#' then SkipSpace(SkipLine(s), newlineOk)
    else s
  }

  method ParseSpace(src: string, newlineOk: bool) returns (pos: string)
    ensures pos == SkipSpace(src, newlineOk)
  {
    pos := src;
    while IsBlank(At(pos, 0), newlineOk) || At(pos, 0) == '#'
      invariant SkipSpace(pos, newlineOk) == SkipSpace(src, newlineOk)
      decreases |pos|
    {
      if At(pos, 0) == '#' {
        ghost var line := pos;
        while !EndsLine(At(pos, 0))
          invariant SkipLine(pos) == SkipLine(line)
          invariant |pos| <= |line| && (|pos| == |line| ==> pos == line)
          decreases |pos|
        {
          pos := pos[1..];
        }
      } else {
        pos := pos[1..];
      }
    }
  }

  predicate IsHex(c: char) {
    'a' <= c <= 'f' || 'A' <= c <= 'F' || IsDigit(c)
  }

  function HexValue(c: char): (v: nat)
    requires IsHex(c)
    ensures v < 16
  {
    if 'a' <= c <= 'f' then c as int - 'a' as int + 10
    else if 'A' <= c <= 'F' then c as int - 'A' as int + 10
    else DigitValue(c)
  }

  /** Exactly `size` hexadecimal digits. */
  function HexDigits(s: string, size: nat, value: nat): (r: Option<(nat, string)>)
    ensures r.Some? ==> |r.value.1| == |s| - size
    decreases size
  {
    if size == 0 then Some((value, s))
    else if IsHex(At(s, 0)) then HexDigits(s[1..], size - 1, value * 16 + HexValue(s[0]))
    else None
  }

  method ParseHex(src: string, size: nat) returns (r: Option<(nat, string)>)
    ensures r == HexDigits(src, size, 0)
  {
    var pos, value, left := src, 0, size;
    while left > 0 && IsHex(At(pos, 0))
      invariant 0 <= left && 0 <= value
      invariant HexDigits(src, size, 0) == HexDigits(pos, left, value)
      decreases left
    {
      value := value * 16 + HexValue(pos[0]);
      pos, left := pos[1..], left - 1;
    }
    r := if left == 0 then Some((value, pos)) else None;
  }

  /** Bytes in the UTF-8 sequence that a byte with these four high bits starts. */
  function Utf8Length(highBits: nat): (n: nat)
    requires highBits < 16
    ensures 1 <= n <= 4
  {
    [1, 1, 1, 1, 1, 1, 1, 1, 1, 1, 1, 1, 2, 2, 3, 4][highBits]
  }

  function LeadMask(len: nat): nat
    requires 1 <= len <= 4
  {
    [128, 64, 32, 16][len - 1]
  }

  /** At most `left` continuation bytes, stopping early at the end of the text. */
  function Continuation(s: string, left: nat, value: nat): (r: (nat, string))
    ensures |r.1| <= |s|
    decreases left
  {
    if left == 0 || At(s, 0) == '\0' then (value, s)
    else Continuation(s[1..], left - 1, value * 64 + (s[0] as int % 256) % 64)
  }

  function Utf8(s: string): (r: (nat, string))
    requires s != []
    ensures |r.1| < |s|
  {
    var first := s[0] as int % 256;
    var len := Utf8Length(first / 16);
    Continuation(s[1..], len - 1, first % LeadMask(len))
  }

  method DecodeUtf8(src: string) returns (value: nat, pos: string)
    requires src != []
    ensures (value, pos) == Utf8(src)
  {
    var first := src[0] as int % 256;
    var len := Utf8Length(first / 16);
    value := first % LeadMask(len);
    pos := src[1..];
    var left := len - 1;
    while left > 0 && At(pos, 0) != '\0'
      invariant 0 <= left && 0 <= value
      invariant Continuation(pos, left, value) == Utf8(src)
      decreases left
    {
      value := value * 64 + (pos[0] as int % 256) % 64;
      pos, left := pos[1..], left - 1;
    }
  }

  /** One character of a literal or class, escaped or not. */
  function Character(s: string): (r: Option<(nat, string)>)
    ensures r.Some? ==> |r.value.1| < |s|
  {
    if At(s, 0) == '\\' then
      match At(s, 1)
      case 'x' => HexDigits(s[2..], 2, 0)
      case 'u' => HexDigits(s[2..], 4, 0)
      case 'U' => HexDigits(s[2..], 8, 0)
      case 't' => Some((9, s[2..]))
      case 'r' => Some((13, s[2..]))
      case 'n' => Some((10, s[2..]))
      case '\\' => Some((92, s[2..]))
      case '"' => Some((34, s[2..]))
      case '[' => Some((91, s[2..]))
      case ']' => Some((93, s[2..]))
      case _ => None
    else if At(s, 0) != '\0' then Some(Utf8(s))
    else None
  }

  method ParseChar(src: string) returns (r: Option<(nat, string)>)
    ensures r == Character(src)
  {
    if At(src, 0) == '\\' {
      match At(src, 1)
      case 'x' => r := ParseHex(src[2..], 2);
      case 'u' => r := ParseHex(src[2..], 4);
      case 'U' => r := ParseHex(src[2..], 8);
      case 't' => r := Some(('\t' as int, src[2..]));
      case 'r' => r := Some(('\r' as int, src[2..]));
      case 'n' => r := Some(('\n' as int, src[2..]));
      case '\\' => r := Some(('\\' as int, src[2..]));
      case '"' => r := Some(('"' as int, src[2..]));
      case '[' => r := Some(('[' as int, src[2..]));
      case ']' => r := Some((']' as int, src[2..]));
      case _ => r := None;
    } else if At(src, 0) != '\0' {
      var value, pos := DecodeUtf8(src);
      r := Some((value, pos));
    } else {
      r := None;
    }
  }

  const ULONG_LIMIT: nat := 0x1_0000_0000_0000_0000

  /** Storing an `unsigned long` in an `int` keeps its low 32 bits, read as two's complement. */
  function ToInt(v: nat): int {
    (v + 0x8000_0000) % 0x1_0000_0000 - 0x8000_0000
  }

  /** A decimal bound of `{m,n}`; `stoul` refuses values that need more than 64 bits. */
  function Bound(s: string): (r: Option<(int, string)>)
    ensures r.Some? ==> |r.value.1| < |s|
  {
    var n := PrefixLength(s, IsDigit);
    if n == 0 || Value(s[..n]) >= ULONG_LIMIT then None
    else Some((ToInt(Value(s[..n])), s[n..]))
  }

  method ParseBound(src: string) returns (r: Option<(int, string)>)
    ensures r == Bound(src)
  {
    var n := IntEnd(src);
    if n == 0 || Value(src[..n]) >= ULONG_LIMIT {
      return None;
    }
    r := Some((ToInt(Value(src[..n])), src[n..]));
  }
}
