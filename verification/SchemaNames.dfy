/** The names of properties: the rule names made from them, and their spelling in JSON. */
module SchemaNames {
  import opened Wrappers
  import Bytes
  import opened GbnfSyntax
  import opened GbnfLexer
  import opened SchemaLiterals
  import opened SchemaObjects
  import opened SchemaStringsDecoded

  // ----- rule names

  const NAME_CHARS: string := "abcdefghijklmnopqrstuvwxyz" + "ABCDEFGHIJKLMNOPQRSTUVWXYZ" + "0123456789" + "-"

  lemma NameCharIs(c: char)
    ensures NameChar(c) <==> c in NAME_CHARS
  {
    LetterIs("abcdefghijklmnopqrstuvwxyz", 'a', c);
    LetterIs("ABCDEFGHIJKLMNOPQRSTUVWXYZ", 'A', c);
    LetterIs("0123456789", '0', c);
  }

  /** What the parser takes for a name is what the converter writes in one. */
  lemma WordCharIs(c: char)
    ensures IsWordChar(c) <==> c in NAME_CHARS
  {
    NameCharIs(c);
  }

  lemma LetterIs(letters: string, first: char, c: char)
    requires |letters| < 100 && first < 100 as char && forall i :: 0 <= i < |letters| ==> letters[i] as int == first as int + i
    ensures c in letters <==> first as int <= c as int < first as int + |letters|
  {
    if first as int <= c as int < first as int + |letters| {
      assert letters[c as int - first as int] == c;
    }
  }

  /** What may stand in a rule name stays. */
  lemma {:induction false} ValidStays(valid: string, rest: string)
    requires forall i :: 0 <= i < |valid| ==> NameChar(valid[i])
    ensures Escape(valid + rest) == valid + Escape(rest)
    decreases |valid|
  {
    if valid == "" {
      assert valid + rest == rest;
    } else {
      ValidStays(valid[1..], rest);
      assert (valid + rest)[1..] == valid[1..] + rest && (valid + rest)[0] == valid[0];
      assert [valid[0]] + (valid[1..] + Escape(rest)) == valid + Escape(rest);
    }
  }

  lemma {:induction false} RunIsDropped(invalid: string, rest: string)
    requires (forall i :: 0 <= i < |invalid| ==> !NameChar(invalid[i])) && (rest == "" || NameChar(rest[0]))
    ensures DropInvalid(invalid + rest) == rest
    decreases |invalid|
  {
    if invalid == "" {
      assert invalid + rest == rest;
    } else {
      RunIsDropped(invalid[1..], rest);
      assert (invalid + rest)[1..] == invalid[1..] + rest && (invalid + rest)[0] == invalid[0];
    }
  }

  /** A whole run of other characters becomes one dash. */
  lemma RunBecomesDash(invalid: string, rest: string)
    requires invalid != "" && (forall i :: 0 <= i < |invalid| ==> !NameChar(invalid[i])) && (rest == "" || NameChar(rest[0]))
    ensures Escape(invalid + rest) == "-" + Escape(rest)
  {
    RunIsDropped(invalid[1..], rest);
    assert (invalid + rest)[1..] == invalid[1..] + rest && (invalid + rest)[0] == invalid[0];
  }

  // ----- JSON

  lemma LowerHexIs(d: nat)
    requires d < 16
    ensures HexOf(LowerHex(d) as int) == Some(d) && LowerHex(d) == Bytes.LOWER_HEX[d]
  {
  }

  lemma {:induction false} CodesConcat(a: string, b: string)
    ensures Codes(a + b) == Codes(a) + Codes(b)
  {
  }

  lemma CharDecodes(c: char, rest: Word, tail: Word)
    requires Decoded(rest) == Some(tail)
    ensures Decoded(Codes(DumpedChar(c)) + rest) == Some([c as int] + tail)
  {
    var w := Codes(DumpedChar(c)) + rest;
    if |DumpedChar(c)| == 1 {
      assert w[1..] == rest && w[0] == c as int;
    } else if |DumpedChar(c)| == 2 {
      assert w[2..] == rest && w[0] == 92;
      assert Unit(w).None? && Short(w[1]) == Some(c as int);
    } else {
      ControlDecodes(c as int, w, rest, tail);
    }
  }

  lemma ControlDecodes(c: nat, w: Word, rest: Word, tail: Word)
    requires c < 32 && w == Codes("\\u00" + [LowerHex(c / 16), LowerHex(c % 16)]) + rest && Decoded(rest) == Some(tail)
    ensures Decoded(w) == Some([c] + tail)
  {
    LowerHexIs(c / 16);
    LowerHexIs(c % 16);
    assert w[6..] == rest && w[0] == 92 && w[1] == 117;
    assert w[2] == 48 && w[3] == 48 && w[4] == LowerHex(c / 16) as int && w[5] == LowerHex(c % 16) as int;
    FourDigits(w, 0, 0, c / 16, c % 16);
  }

  /** JSON reads the dump of a name as that name. */
  lemma {:induction false} DumpDecodes(name: string)
    ensures Decoded(Codes(DumpedChars(name))) == Some(Codes(name))
    decreases |name|
  {
    if name != "" {
      DumpDecodes(name[1..]);
      CodesConcat(DumpedChar(name[0]), DumpedChars(name[1..]));
      CharDecodes(name[0], Codes(DumpedChars(name[1..])), Codes(name[1..]));
      assert Codes(name) == [name[0] as int] + Codes(name[1..]);
    }
  }
}
