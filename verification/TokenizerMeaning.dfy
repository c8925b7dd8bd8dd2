/** What the tables, the segmentation, the merges and decoding are, each in terms of the vocabulary alone. */
module TokenizerMeaning {
  import opened Wrappers
  import opened Bytes
  import opened Gpt2Bytes
  import opened Tokenizer
  import opened TokenizerRoundTrip

  // ----- the tables

  predicate Writes(s: seq<Byte>, text: string) {
    |s| == |text| && forall i :: 0 <= i < |s| ==> s[i] == text[i] as int
  }

  function NumberOf(digits: seq<Byte>, acc: nat): nat
    requires forall i :: 0 <= i < |digits| ==> HexDigit(digits[i]).Some?
    decreases |digits|
  {
    if digits == [] then acc else NumberOf(digits[1..], 16 * acc + HexDigit(digits[0]).value)
  }

  lemma {:induction false} NumberGrows(digits: seq<Byte>, acc: nat)
    requires forall i :: 0 <= i < |digits| ==> HexDigit(digits[i]).Some?
    ensures NumberOf(digits, acc) >= acc
    decreases |digits|
  {
    if digits != [] {
      NumberGrows(digits[1..], 16 * acc + HexDigit(digits[0]).value);
    }
  }

  lemma {:induction false} HexByteIs(digits: seq<Byte>, acc: Byte, b: Byte)
    ensures HexByte(digits, acc) == Some(b) <==>
      (forall i :: 0 <= i < |digits| ==> HexDigit(digits[i]).Some?) && NumberOf(digits, acc) == b
    decreases |digits|
  {
    if digits != [] {
      var d := HexDigit(digits[0]);
      if d.Some? {
        assert forall i :: 0 <= i < |digits| - 1 ==> digits[1..][i] == digits[i + 1];
        assert forall i :: 0 < i < |digits| ==> digits[i] == digits[1..][i - 1];
        if 16 * acc + d.value < 256 {
          HexByteIs(digits[1..], 16 * acc + d.value, b);
        } else if forall i :: 0 <= i < |digits| ==> HexDigit(digits[i]).Some? {
          NumberGrows(digits[1..], 16 * acc + d.value);
        }
      }
    }
  }

  /** The name `<0xNN>` of a byte, with the plus sign and the zeros that may stand before the number. */
  predicate NamesByte(s: seq<Byte>, plus: bool, digits: seq<Byte>, b: Byte) {
    && |s| == (if plus then 5 else 4) + |digits| && digits != []
    && Writes(s[..3], "<0x") && (plus ==> s[3] == '+' as int) && s[|s| - 1] == '>' as int
    && digits == s[if plus then 4 else 3..|s| - 1]
    && (forall i :: 0 <= i < |digits| ==> HexDigit(digits[i]).Some?) && NumberOf(digits, 0) == b
  }

  lemma ByteTokenIs(s: seq<Byte>, b: Byte)
    ensures ParseByteToken(s) == Some(b) <==> exists plus, digits :: NamesByte(s, plus, digits, b)
  {
    if |s| >= 4 {
      assert Writes(s[..3], "<0x") <==> s[..3] == [60, 48, 120];
      var inner := s[3..|s| - 1];
      var plus := inner != [] && inner[0] == '+' as int;
      var digits := if plus then inner[1..] else inner;
      HexByteIs(digits, 0, b);
      if ParseByteToken(s) == Some(b) {
        assert NamesByte(s, plus, digits, b);
      }
      forall plus', digits' | NamesByte(s, plus', digits', b)
        ensures plus' == plus && digits' == digits
      {
        assert plus' ==> inner[0] == s[3];
        assert !plus' ==> digits' == inner;
      }
    }
  }

  lemma ByteTokenExample()
    ensures forall s :: Writes(s, "<0x4f>") || Writes(s, "<0x4F>") || Writes(s, "<0x+04F>") ==> ParseByteToken(s) == Some(79)
  {
    forall s | Writes(s, "<0x4f>") || Writes(s, "<0x4F>") || Writes(s, "<0x+04F>")
      ensures ParseByteToken(s) == Some(79)
    {
      if |s| == 6 {
        var digits := s[3..5];
        assert NumberOf(digits[1..], 4) == 79;
        assert NamesByte(s, false, digits, 79);
      } else {
        var digits := s[4..7];
        assert digits[1..][1..] == [digits[2]];
        assert NumberOf(digits[1..][1..], 4) == 79;
        assert NumberOf(digits[1..], 0) == 79;
        assert NamesByte(s, true, digits, 79);
      }
      ByteTokenIs(s, 79);
    }
  }

  /** An entry stands for the byte its string names, or for its string. */
  lemma EntriesAre(tokens: seq<seq<Byte>>, types: seq<nat>, i: nat)
    requires i < |tokens|
    ensures var e := Entries(tokens, types)[i];
      && e.tokenType == (if i < |types| then types[i] else 1)
      && (e.isByteFallback <==> exists b: Byte, plus, digits :: NamesByte(tokens[i], plus, digits, b))
      && (if e.isByteFallback then |e.text| == 1 && exists plus, digits :: NamesByte(tokens[i], plus, digits, e.text[0]) else e.text == tokens[i])
  {
    var b := ParseByteToken(tokens[i]);
    if b.Some? {
      ByteTokenIs(tokens[i], b.value);
      var plus, digits :| NamesByte(tokens[i], plus, digits, b.value);
      assert NamesByte(tokens[i], plus, digits, Entries(tokens, types)[i].text[0]);
    }
    forall b: Byte, plus, digits | NamesByte(tokens[i], plus, digits, b)
      ensures ParseByteToken(tokens[i]) == Some(b)
    {
      ByteTokenIs(tokens[i], b);
    }
  }

  /** The last entry with that text. */
  predicate IsLastWith(entries: seq<Entry>, s: seq<Byte>, n: nat) {
    n < |entries| && entries[n].text == s && forall i :: n < i < |entries| ==> entries[i].text != s
  }

  lemma {:induction false} IdsAre(entries: seq<Entry>, s: seq<Byte>, n: nat)
    ensures s in Ids(entries) && Ids(entries)[s] == n <==> IsLastWith(entries, s, n)
  {
    if entries != [] {
      var front := entries[..|entries| - 1];
      IdsAre(front, s, n);
      assert forall i :: 0 <= i < |front| ==> front[i] == entries[i];
    }
  }

  /** The line names the pair: two texts around its first space. */
  predicate NamesAt(ids: map<seq<Byte>, nat>, line: seq<Byte>, pair: (nat, nat), cut: nat) {
    && cut < |line| && line[cut] == ' ' as int && ' ' as int !in line[..cut]
    && line[..cut] in ids && ids[line[..cut]] == pair.0
    && line[cut + 1..] in ids && ids[line[cut + 1..]] == pair.1
  }

  ghost predicate Names(ids: map<seq<Byte>, nat>, line: seq<Byte>, pair: (nat, nat)) {
    exists cut: nat :: NamesAt(ids, line, pair, cut)
  }

  predicate CutsAt(line: seq<Byte>, cut: nat) {
    cut < |line| && line[cut] == ' ' as int && ' ' as int !in line[..cut]
  }

  lemma {:induction false} SplitIs(line: seq<Byte>, i: nat)
    requires i <= |line| && ' ' as int !in line[..i]
    ensures SplitOnce(line, i).None? ==> ' ' as int !in line
    ensures SplitOnce(line, i).Some? ==> exists cut: nat :: CutsAt(line, cut) && SplitOnce(line, i) == Some((line[..cut], line[cut + 1..]))
    decreases |line| - i
  {
    if i == |line| {
      assert line[..i] == line;
    } else if line[i] == SPACE {
      assert CutsAt(line, i);
    } else {
      assert line[..i + 1] == line[..i] + [line[i]];
      SplitIs(line, i + 1);
    }
  }

  lemma OneCut(line: seq<Byte>, a: nat, b: nat)
    requires CutsAt(line, a) && CutsAt(line, b)
    ensures a == b
  {
    Within(line, a, b);
    Within(line, b, a);
  }

  lemma Within(line: seq<Byte>, a: nat, b: nat)
    ensures a < b < |line| ==> line[a] in line[..b]
  {
    if a < b < |line| {
      assert line[..b][a] == line[a];
    }
  }

  lemma PairIs(ids: map<seq<Byte>, nat>, line: seq<Byte>, pair: (nat, nat))
    ensures MergePair(ids, line) == Some(pair) <==> Names(ids, line, pair)
  {
    assert line[..0] == [];
    SplitIs(line, 0);
    if SplitOnce(line, 0).Some? {
      var cut: nat :| CutsAt(line, cut) && SplitOnce(line, 0) == Some((line[..cut], line[cut + 1..]));
      if MergePair(ids, line) == Some(pair) {
        assert NamesAt(ids, line, pair, cut);
      }
      forall other: nat | NamesAt(ids, line, pair, other)
        ensures other == cut
      {
        OneCut(line, other, cut);
      }
    }
  }

  ghost predicate IsLastLine(ids: map<seq<Byte>, nat>, merges: seq<seq<Byte>>, pair: (nat, nat), n: nat) {
    n < |merges| && Names(ids, merges[n], pair) && forall i :: n < i < |merges| ==> !Names(ids, merges[i], pair)
  }

  /** The rank of a pair is the number of the last line that names it. */
  lemma {:induction false} RanksAre(ids: map<seq<Byte>, nat>, merges: seq<seq<Byte>>, pair: (nat, nat), n: nat)
    ensures pair in Ranks(ids, merges) && Ranks(ids, merges)[pair] == n <==> IsLastLine(ids, merges, pair, n)
  {
    if merges != [] {
      var front := merges[..|merges| - 1];
      RanksAre(ids, front, pair, n);
      PairIs(ids, merges[|merges| - 1], pair);
      assert forall i :: 0 <= i < |front| ==> front[i] == merges[i];
    }
  }

  /** An entry of type 6, or one byte of another type than 1. */
  predicate StandsFor(e: Entry, b: Byte) {
    e.text != [] && e.text[0] == b && (e.tokenType == 6 || (e.tokenType != 1 && |e.text| == 1))
  }

  /** The byte table holds the last entry that stands for the byte, or 0. */
  lemma ByteTableIs(entries: seq<Entry>, b: Byte)
    ensures var n := ByteTable(entries)[b];
      || (n < |entries| && StandsFor(entries[n], b) && forall i :: n < i < |entries| ==> !StandsFor(entries[i], b))
      || (n == 0 && forall i :: 0 <= i < |entries| ==> !StandsFor(entries[i], b))
  {
    ByteIdIs(entries, b);
  }

  lemma {:induction false} ByteIdIs(entries: seq<Entry>, b: Byte)
    ensures var n := ByteId(entries, b);
      || (n < |entries| && StandsFor(entries[n], b) && forall i :: n < i < |entries| ==> !StandsFor(entries[i], b))
      || (n == 0 && forall i :: 0 <= i < |entries| ==> !StandsFor(entries[i], b))
  {
    if entries != [] {
      var front := entries[..|entries| - 1];
      ByteIdIs(front, b);
      assert forall i :: 0 <= i < |front| ==> front[i] == entries[i];
    }
  }

  const STOP_TEXTS: seq<string> := ["<|end_of_text|>", "<|eot_id|>", "<|endoftext|>", "<|im_end|>", "</s>", "<|end|>"]

  lemma StopStringsAre()
    ensures |StopStrings()| == |STOP_TEXTS| == 6
    ensures forall i :: 0 <= i < 6 ==> Writes(StopStrings()[i], STOP_TEXTS[i])
  {
    assert Writes(StopStrings()[0], "<|end_of_text|>");
    assert Writes(StopStrings()[1], "<|eot_id|>");
    assert Writes(StopStrings()[2], "<|endoftext|>");
    assert Writes(StopStrings()[3], "<|im_end|>");
    assert Writes(StopStrings()[4], "</s>");
    assert Writes(StopStrings()[5], "<|end|>");
  }

  /** The id of a terminator that the vocabulary knows. */
  predicate IsTerminator(ids: map<seq<Byte>, nat>, s: seq<Byte>, i: nat, id: nat) {
    i < |STOP_TEXTS| && Writes(s, STOP_TEXTS[i]) && s in ids && ids[s] == id
  }

  ghost predicate Terminates(ids: map<seq<Byte>, nat>, id: nat) {
    exists s, i: nat :: s in ids && IsTerminator(ids, s, i, id)
  }

  lemma {:induction false} KnownAre(ids: map<seq<Byte>, nat>, strings: seq<seq<Byte>>, id: nat)
    ensures id in Known(ids, strings) <==> exists i :: 0 <= i < |strings| && strings[i] in ids && ids[strings[i]] == id
    decreases |strings|
  {
    if strings != [] {
      KnownAre(ids, strings[1..], id);
      assert forall i :: 0 <= i < |strings| - 1 ==> strings[1..][i] == strings[i + 1];
      assert forall i :: 0 < i < |strings| ==> strings[i] == strings[1..][i - 1];
    }
  }

  lemma SameWriting(a: seq<Byte>, b: seq<Byte>, text: string)
    requires Writes(a, text) && Writes(b, text)
    ensures a == b
  {
  }

  lemma KnownTerminate(ids: map<seq<Byte>, nat>, id: nat)
    ensures id in Known(ids, StopStrings()) <==> Terminates(ids, id)
  {
    KnownAre(ids, StopStrings(), id);
    StopStringsAre();
    if id in Known(ids, StopStrings()) {
      var i :| 0 <= i < 6 && StopStrings()[i] in ids && ids[StopStrings()[i]] == id;
      assert IsTerminator(ids, StopStrings()[i], i, id);
    }
    forall s, i: nat | IsTerminator(ids, s, i, id)
      ensures s == StopStrings()[i]
    {
      SameWriting(s, StopStrings()[i], STOP_TEXTS[i]);
    }
  }

  /** Generation stops at the terminators the vocabulary knows, or at 128001 and 128009 if it knows none. */
  lemma StopIdsAre(ids: map<seq<Byte>, nat>, id: nat)
    ensures id in StopIds(ids) <==> Terminates(ids, id) || (id in [128_001, 128_009] && forall other: nat :: !Terminates(ids, other))
  {
    var known := Known(ids, StopStrings());
    forall other: nat
      ensures other in known <==> Terminates(ids, other)
    {
      KnownTerminate(ids, other);
    }
    if known != [] {
      assert Terminates(ids, known[0]);
    }
  }

  // ----- the initial tokens

  predicate Matches(v: Vocab, bytes: seq<Byte>, from: nat, to: nat) {
    from < to <= |bytes| && to - from <= 64 && bytes[from..to] in v.tokenToId
  }

  /** The longest text of at most 64 bytes that is a token. */
  ghost predicate TakesMatch(v: Vocab, bytes: seq<Byte>, from: nat, to: nat, id: nat) {
    && Matches(v, bytes, from, to) && id == v.tokenToId[bytes[from..to]]
    && forall more: nat :: to < more ==> !Matches(v, bytes, from, more)
  }

  /** The first byte whose spelling starts at `pos`; 0 if none does. */
  predicate StartsAt(orig: seq<Byte>, pos: nat, k: nat) {
    || (k < |orig| && |Spelled(orig[..k])| == pos && forall j :: 0 <= j < k ==> |Spelled(orig[..j])| != pos)
    || (k == 0 && forall j :: 0 <= j < |orig| ==> |Spelled(orig[..j])| != pos)
  }

  predicate FallsTo(v: Vocab, orig: seq<Byte>, pos: nat, k: nat, id: nat)
    requires |v.byteToToken| == 256
  {
    StartsAt(orig, pos, k) && k < 256 && id == v.byteToToken[k]
  }

  /** Nothing matches: the table is asked, and one character is passed by. */
  ghost predicate FallsBack(v: Vocab, orig: seq<Byte>, bytes: seq<Byte>, from: nat, to: nat, id: nat)
    requires |v.byteToToken| == 256
  {
    && from < |bytes| && (forall more: nat :: !Matches(v, bytes, from, more))
    && to == from + (if bytes[from] < 0x80 then 1 else if bytes[from] < 0xE0 then 2 else 3)
    && exists k: nat :: FallsTo(v, orig, from, k, id)
  }

  ghost predicate TakesToken(v: Vocab, orig: seq<Byte>, bytes: seq<Byte>, from: nat, to: nat, id: nat)
    requires |v.byteToToken| == 256
  {
    TakesMatch(v, bytes, from, to, id) || FallsBack(v, orig, bytes, from, to, id)
  }

  /** The tokens between the cuts. */
  ghost predicate IsSegmentation(v: Vocab, orig: seq<Byte>, bytes: seq<Byte>, start: nat, cuts: seq<nat>, ids: seq<nat>)
    requires |v.byteToToken| == 256
  {
    && |cuts| == |ids| + 1 && cuts[0] == start && cuts[|ids|] >= |bytes|
    && forall i :: 0 <= i < |ids| ==> TakesToken(v, orig, bytes, cuts[i], cuts[i + 1], ids[i])
  }

  lemma {:induction false} PositionStarts(orig: seq<Byte>, pos: nat, k: nat)
    requires k <= |orig| && forall j :: 0 <= j < k ==> |Spelled(orig[..j])| != pos
    ensures StartsAt(orig, pos, Position(orig, pos, k))
    decreases |orig| - k
  {
    if k < |orig| && |Spelled(orig[..k])| != pos {
      PositionStarts(orig, pos, k + 1);
    }
  }

  lemma MatchIsFirst(v: Vocab, bytes: seq<Byte>, i: nat)
    requires i < |bytes|
    ensures var n := FirstMatch(v, bytes[i..]);
      if n > 0 then TakesMatch(v, bytes, i, i + n, v.tokenToId[bytes[i..][..n]]) else forall more: nat :: !Matches(v, bytes, i, more)
  {
    var n := FirstMatch(v, bytes[i..]);
    assert n > 0 ==> bytes[i..][..n] == bytes[i..i + n];
    forall more: nat | i + n < more
      ensures !Matches(v, bytes, i, more)
    {
      if i + n < more <= |bytes| && more - i <= 64 {
        assert bytes[i..][..more - i] == bytes[i..more];
      }
    }
    if n == 0 {
      assert forall more: nat :: more <= i ==> !Matches(v, bytes, i, more);
    }
  }

  /** The first token, and the cut behind it. */
  lemma FirstTaken(v: Vocab, orig: seq<Byte>, bytes: seq<Byte>, i: nat, to: nat, id: nat)
    requires |v.byteToToken| == 256 && i < |bytes| && TakesToken(v, orig, bytes, i, to, id)
    ensures to > i && Segments(v, orig, bytes, i) == Prepend(id, Segments(v, orig, bytes, to))
  {
    if TakesMatch(v, bytes, i, to, id) {
      FirstMatched(v, orig, bytes, i, to, id);
    } else {
      FirstFellBack(v, orig, bytes, i, to, id);
    }
  }

  lemma FirstMatched(v: Vocab, orig: seq<Byte>, bytes: seq<Byte>, i: nat, to: nat, id: nat)
    requires |v.byteToToken| == 256 && i < |bytes| && TakesMatch(v, bytes, i, to, id)
    ensures Segments(v, orig, bytes, i) == Prepend(id, Segments(v, orig, bytes, to))
  {
    MatchIsFirst(v, bytes, i);
    var n := FirstMatch(v, bytes[i..]);
    assert Matches(v, bytes, i, to);
    assert i + n == to && bytes[i..][..n] == bytes[i..to];
  }

  lemma FirstFellBack(v: Vocab, orig: seq<Byte>, bytes: seq<Byte>, i: nat, to: nat, id: nat)
    requires |v.byteToToken| == 256 && i < |bytes| && FallsBack(v, orig, bytes, i, to, id)
    ensures Segments(v, orig, bytes, i) == Prepend(id, Segments(v, orig, bytes, to))
  {
    MatchIsFirst(v, bytes, i);
    assert FirstMatch(v, bytes[i..]) == 0 by {
      assert !Matches(v, bytes, i, i + FirstMatch(v, bytes[i..]));
    }
    var k: nat :| FallsTo(v, orig, i, k, id);
    PositionStarts(orig, i, 0);
    OneStart(orig, i, k, Position(orig, i, 0));
  }

  lemma OneStart(orig: seq<Byte>, pos: nat, a: nat, b: nat)
    requires StartsAt(orig, pos, a) && StartsAt(orig, pos, b)
    ensures a == b
  {
  }

  /** The segmentation has a first token unless the table is asked past its end. */
  lemma SegmentsTake(v: Vocab, orig: seq<Byte>, bytes: seq<Byte>, i: nat) returns (to: nat, id: nat)
    requires |v.byteToToken| == 256 && i < |bytes| && Segments(v, orig, bytes, i).Some?
    ensures TakesToken(v, orig, bytes, i, to, id)
  {
    MatchIsFirst(v, bytes, i);
    var n := FirstMatch(v, bytes[i..]);
    if n > 0 {
      to, id := i + n, v.tokenToId[bytes[i..][..n]];
    } else {
      var k := Position(orig, i, 0);
      PositionStarts(orig, i, 0);
      to, id := i + Gpt2CharLen(bytes[i]), v.byteToToken[k];
      assert FallsTo(v, orig, i, k, id);
    }
  }

  lemma {:induction false} SegmentsHaveCuts(v: Vocab, orig: seq<Byte>, bytes: seq<Byte>, i: nat) returns (cuts: seq<nat>)
    requires |v.byteToToken| == 256 && Segments(v, orig, bytes, i).Some?
    ensures IsSegmentation(v, orig, bytes, i, cuts, Segments(v, orig, bytes, i).value)
    decreases |bytes| - i
  {
    if i >= |bytes| {
      cuts := [i];
    } else {
      var to, id := SegmentsTake(v, orig, bytes, i);
      FirstTaken(v, orig, bytes, i, to, id);
      var rest := SegmentsHaveCuts(v, orig, bytes, to);
      cuts := [i] + rest;
      var ids := Segments(v, orig, bytes, i).value;
      forall j | 0 <= j < |ids|
        ensures TakesToken(v, orig, bytes, cuts[j], cuts[j + 1], ids[j])
      {
        if j > 0 {
          assert cuts[j] == rest[j - 1] && cuts[j + 1] == rest[j];
        }
      }
    }
  }

  lemma {:induction false} CutsAreSegments(v: Vocab, orig: seq<Byte>, bytes: seq<Byte>, i: nat, cuts: seq<nat>, ids: seq<nat>)
    requires |v.byteToToken| == 256 && IsSegmentation(v, orig, bytes, i, cuts, ids)
    ensures Segments(v, orig, bytes, i) == Some(ids)
    decreases |ids|
  {
    if ids != [] {
      assert TakesToken(v, orig, bytes, cuts[0], cuts[1], ids[0]);
      FirstTaken(v, orig, bytes, i, cuts[1], ids[0]);
      forall j | 0 <= j < |ids| - 1
        ensures TakesToken(v, orig, bytes, cuts[1..][j], cuts[1..][j + 1], ids[1..][j])
      {
        assert TakesToken(v, orig, bytes, cuts[j + 1], cuts[j + 2], ids[j + 1]);
      }
      CutsAreSegments(v, orig, bytes, cuts[1], cuts[1..], ids[1..]);
      assert ids == [ids[0]] + ids[1..];
    }
  }

  // ----- the merges

  /** The rank of two neighbours, if they have one below 2^32 - 1. */
  predicate HasRank(v: Vocab, ids: seq<nat>, j: nat, rank: nat) {
    j + 1 < |ids| && (ids[j], ids[j + 1]) in v.mergeRank && v.mergeRank[(ids[j], ids[j + 1])] == rank < 0xFFFF_FFFF
  }

  /** The neighbours at `p` have the lowest rank, and no others before them have the same. */
  ghost predicate IsLowest(v: Vocab, ids: seq<nat>, p: nat, rank: nat) {
    && HasRank(v, ids, p, rank)
    && forall q: nat, other: nat :: HasRank(v, ids, q, other) ==> rank <= other && (q < p ==> rank < other)
  }

  /** One id for the two at `p`. */
  ghost predicate MergesAt(v: Vocab, ids: seq<nat>, p: nat, shorter: seq<nat>) {
    && p + 1 < |ids| && ids[p] < |v.entries| && ids[p + 1] < |v.entries|
    && v.entries[ids[p]].text + v.entries[ids[p + 1]].text in v.tokenToId
    && |shorter| == |ids| - 1
    && shorter[p] == v.tokenToId[v.entries[ids[p]].text + v.entries[ids[p + 1]].text]
    && (forall i :: 0 <= i < p ==> shorter[i] == ids[i]) && (forall i :: p < i < |shorter| ==> shorter[i] == ids[i + 1])
  }

  ghost predicate MergesLowest(v: Vocab, ids: seq<nat>, p: nat, shorter: seq<nat>) {
    MergesAt(v, ids, p, shorter) && exists rank: nat :: IsLowest(v, ids, p, rank)
  }

  ghost predicate IsStep(v: Vocab, ids: seq<nat>, shorter: seq<nat>) {
    exists p: nat :: MergesLowest(v, ids, p, shorter)
  }

  ghost predicate Ended(v: Vocab, ids: seq<nat>) {
    forall shorter :: !IsStep(v, ids, shorter)
  }

  /** A series of merges that cannot go on. */
  ghost predicate IsRun(v: Vocab, ids: seq<nat>, run: seq<seq<nat>>) {
    && run != [] && run[0] == ids && (forall i :: 0 <= i < |run| - 1 ==> IsStep(v, run[i], run[i + 1]))
    && Ended(v, run[|run| - 1])
  }

  lemma BestIsLowest(v: Vocab, ids: seq<nat>)
    ensures Best(v, ids).Some? ==> IsLowest(v, ids, Best(v, ids).value, v.mergeRank[(ids[Best(v, ids).value], ids[Best(v, ids).value + 1])])
    ensures Best(v, ids).None? ==> forall q: nat, other: nat :: !HasRank(v, ids, q, other)
  {
    var n := if ids == [] then 0 else |ids| - 1;
    assert IsBest(v, ids, n, Best(v, ids));
    forall q: nat, other: nat | HasRank(v, ids, q, other)
      ensures Rank(v, ids, q) == Some(other)
    {
    }
  }

  lemma OneLowest(v: Vocab, ids: seq<nat>, a: nat, x: nat, b: nat, y: nat)
    requires IsLowest(v, ids, a, x) && IsLowest(v, ids, b, y)
    ensures a == b
  {
  }

  lemma StepIsMerge(v: Vocab, ids: seq<nat>, next: seq<nat>)
    requires WellFormed(v)
    ensures IsStep(v, ids, next) <==> Best(v, ids).Some? && MergeAt(v, ids, Best(v, ids).value) == Some(next)
  {
    BestIsLowest(v, ids);
    if Best(v, ids).Some? {
      var p := Best(v, ids).value;
      RankedInRange(v, ids);
      if MergeAt(v, ids, p) == Some(next) {
        assert MergesLowest(v, ids, p, next);
      }
      forall q: nat | MergesLowest(v, ids, q, next)
        ensures q == p && MergeAt(v, ids, p) == Some(next)
      {
        var rank: nat :| IsLowest(v, ids, q, rank);
        OneLowest(v, ids, q, rank, p, v.mergeRank[(ids[p], ids[p + 1])]);
        MergedIs(v, ids, p, next);
      }
    }
  }

  lemma MergedIs(v: Vocab, ids: seq<nat>, p: nat, next: seq<nat>)
    requires MergesAt(v, ids, p, next)
    ensures MergeAt(v, ids, p) == Some(next)
  {
    assert next == ids[..p] + [next[p]] + ids[p + 2..];
  }

  /** Merging is the run in which each step merges the leftmost neighbours of lowest rank. */
  lemma {:induction false} MergedIsARun(v: Vocab, ids: seq<nat>) returns (run: seq<seq<nat>>)
    requires WellFormed(v)
    ensures IsRun(v, ids, run) && run[|run| - 1] == Merged(v, ids)
    decreases |ids|
  {
    var best := Best(v, ids);
    if best.Some? && MergeAt(v, ids, best.value).Some? {
      var shorter := MergeAt(v, ids, best.value).value;
      var rest := MergedIsARun(v, shorter);
      StepIsMerge(v, ids, shorter);
      run := [ids] + rest;
      forall i | 0 <= i < |run| - 1
        ensures IsStep(v, run[i], run[i + 1])
      {
        assert i > 0 ==> run[i] == rest[i - 1];
        assert run[i + 1] == rest[i];
      }
      assert run[|run| - 1] == rest[|rest| - 1];
    } else {
      forall next
        ensures !IsStep(v, ids, next)
      {
        StepIsMerge(v, ids, next);
      }
      run := [ids];
    }
  }

  lemma {:induction false} RunIsMerged(v: Vocab, ids: seq<nat>, run: seq<seq<nat>>)
    requires WellFormed(v) && IsRun(v, ids, run)
    ensures run[|run| - 1] == Merged(v, ids)
    decreases |run|
  {
    if |run| > 1 {
      assert IsStep(v, run[0], run[1]);
      StepIsMerge(v, ids, run[1]);
      forall i | 0 <= i < |run| - 2
        ensures IsStep(v, run[1..][i], run[1..][i + 1])
      {
        assert IsStep(v, run[i + 1], run[i + 2]);
      }
      RunIsMerged(v, run[1], run[1..]);
    } else {
      var best := Best(v, ids);
      if best.Some? && MergeAt(v, ids, best.value).Some? {
        StepIsMerge(v, ids, MergeAt(v, ids, best.value).value);
      }
    }
  }

  // ----- encoding and decoding

  /** The token 128000 where it is asked for, then the end of the merge run of the segmentation. */
  ghost predicate Encodes(v: Vocab, text: seq<Byte>, addBos: bool, cuts: seq<nat>, first: seq<nat>, run: seq<seq<nat>>, ids: seq<nat>)
    requires |v.byteToToken| == 256
  {
    && IsSegmentation(v, text, Spelled(text), 0, cuts, first) && IsRun(v, first, run)
    && ids == if addBos then [128_000] + run[|run| - 1] else run[|run| - 1]
  }

  lemma EncodedIsTheRun(v: Vocab, text: seq<Byte>, addBos: bool, ids: seq<nat>)
    requires WellFormed(v)
    ensures Encoded(v, text, addBos) == Some(ids) <==> exists cuts, first, run :: Encodes(v, text, addBos, cuts, first, run, ids)
  {
    if Encoded(v, text, addBos) == Some(ids) {
      var first := Segments(v, text, Spelled(text), 0).value;
      var cuts := SegmentsHaveCuts(v, text, Spelled(text), 0);
      var run := MergedIsARun(v, first);
      assert [] + run[|run| - 1] == run[|run| - 1];
      assert Encodes(v, text, addBos, cuts, first, run, ids);
    }
    forall cuts, first, run | Encodes(v, text, addBos, cuts, first, run, ids)
      ensures Encoded(v, text, addBos) == Some(ids)
    {
      CutsAreSegments(v, text, Spelled(text), 0, cuts, first);
      RunIsMerged(v, first, run);
      assert [] + run[|run| - 1] == run[|run| - 1];
    }
  }

  /** Nothing for the ids 128000, 128001 and 128004, an unknown id and a control token. */
  lemma OneIdDecodes(v: Vocab, id: nat)
    ensures var d := DecodedBytes(v, [id]);
      if id in [128_000, 128_001, 128_004] || id >= |v.entries| || v.entries[id].tokenType == 3 then d == []
      else if v.entries[id].isByteFallback then d == v.entries[id].text
      else d == if ValidUtf8(v.entries[id].text) then Original(v.entries[id].text) else []
  {
    assert [id][..0] == [];
    assert DecodedBytes(v, [id][..0]) == [];
  }

  lemma {:induction false} DecodedConcat(v: Vocab, a: seq<nat>, b: seq<nat>)
    ensures DecodedBytes(v, a + b) == DecodedBytes(v, a) + DecodedBytes(v, b)
    decreases |b|
  {
    if b == [] {
      assert a + b == a;
    } else {
      var n := |b| - 1;
      assert (a + b)[..|a + b| - 1] == a + b[..n];
      DecodedConcat(v, a, b[..n]);
      Associative(DecodedBytes(v, a), DecodedBytes(v, b[..n]), Contribution(v, b[n]));
    }
  }
}
