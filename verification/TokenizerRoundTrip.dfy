/** Decoding undoes encoding. */
module TokenizerRoundTrip {
  import opened Wrappers
  import opened Bytes
  import opened Gpt2Bytes
  import opened Tokenizer

  /** The texts of the ids, one after the other. */
  function Texts(v: Vocab, ids: seq<nat>): seq<Byte> {
    if ids == [] then [] else TextOf(v, ids[0]) + Texts(v, ids[1..])
  }

  function TextOf(v: Vocab, id: nat): seq<Byte> {
    if id < |v.entries| then v.entries[id].text else []
  }

  /** Each id is in range and has a text. */
  ghost predicate Proper(v: Vocab, ids: seq<nat>) {
    forall i :: 0 <= i < |ids| ==> TextOf(v, ids[i]) != []
  }

  lemma {:induction false} TextsConcat(v: Vocab, a: seq<nat>, b: seq<nat>)
    ensures Texts(v, a + b) == Texts(v, a) + Texts(v, b)
  {
    if a == [] {
      assert a + b == b;
    } else {
      TextsConcat(v, a[1..], b);
      assert (a + b)[1..] == a[1..] + b;
      Associative(TextOf(v, a[0]), Texts(v, a[1..]), Texts(v, b));
    }
  }

  // ----- merging

  lemma RankedInRange(v: Vocab, ids: seq<nat>)
    requires WellFormed(v) && Best(v, ids).Some?
    ensures var p := Best(v, ids).value; ids[p] < |v.entries| && ids[p + 1] < |v.entries|
  {
  }

  lemma MergeAtKeeps(v: Vocab, ids: seq<nat>, p: nat)
    requires WellFormed(v) && p + 1 < |ids| && ids[p] < |v.entries| && ids[p + 1] < |v.entries| && MergeAt(v, ids, p).Some?
    ensures Texts(v, MergeAt(v, ids, p).value) == Texts(v, ids)
    ensures Proper(v, ids) ==> Proper(v, MergeAt(v, ids, p).value)
  {
    var id := v.tokenToId[v.entries[ids[p]].text + v.entries[ids[p + 1]].text];
    MergedText(v, ids[p], ids[p + 1], id);
    ReplacePair(v, ids, p, id);
  }

  /** One id in place of two with the same text together. */
  lemma ReplacePair(v: Vocab, ids: seq<nat>, p: nat, id: nat)
    requires p + 1 < |ids| && TextOf(v, id) == TextOf(v, ids[p]) + TextOf(v, ids[p + 1])
    ensures Texts(v, ids[..p] + [id] + ids[p + 2..]) == Texts(v, ids)
    ensures Proper(v, ids) ==> Proper(v, ids[..p] + [id] + ids[p + 2..])
  {
    assert ids == ids[..p] + [ids[p], ids[p + 1]] + ids[p + 2..];
    PairTexts(v, ids[p], ids[p + 1], id);
    SwapTexts(v, ids[..p], [id], [ids[p], ids[p + 1]], ids[p + 2..]);
    if Proper(v, ids) {
      ProperMerged(v, ids, ids[..p] + [id] + ids[p + 2..], p);
    }
  }

  lemma SwapTexts(v: Vocab, a: seq<nat>, x: seq<nat>, y: seq<nat>, b: seq<nat>)
    requires Texts(v, x) == Texts(v, y)
    ensures Texts(v, a + x + b) == Texts(v, a + y + b)
  {
    TextsConcat(v, a + x, b);
    TextsConcat(v, a + y, b);
    TextsConcat(v, a, x);
    TextsConcat(v, a, y);
  }

  lemma MergedText(v: Vocab, left: nat, right: nat, id: nat)
    requires WellFormed(v) && left < |v.entries| && right < |v.entries|
    requires v.entries[left].text + v.entries[right].text in v.tokenToId
    requires id == v.tokenToId[v.entries[left].text + v.entries[right].text]
    ensures TextOf(v, id) == TextOf(v, left) + TextOf(v, right)
  {
  }

  lemma PairTexts(v: Vocab, left: nat, right: nat, id: nat)
    requires TextOf(v, id) == TextOf(v, left) + TextOf(v, right)
    ensures Texts(v, [id]) == Texts(v, [left, right])
  {
    assert [id][1..] == [] && [left, right][1..] == [right] && [right][1..] == [];
    assert Texts(v, [right]) == TextOf(v, right);
  }

  lemma ProperMerged(v: Vocab, ids: seq<nat>, shorter: seq<nat>, p: nat)
    requires p + 1 < |ids| && |shorter| == |ids| - 1 && Proper(v, ids)
    requires shorter == ids[..p] + [shorter[p]] + ids[p + 2..]
    requires TextOf(v, shorter[p]) == TextOf(v, ids[p]) + TextOf(v, ids[p + 1])
    ensures Proper(v, shorter)
  {
    forall i | 0 <= i < |shorter|
      ensures TextOf(v, shorter[i]) != []
    {
      if i < p {
        assert shorter[i] == ids[i];
      } else if i > p {
        assert shorter[i] == ids[i + 1];
      } else {
        assert TextOf(v, ids[p]) != [];
      }
    }
  }

  /** Merging changes the ids, never the text. */
  lemma {:induction false} MergedKeeps(v: Vocab, ids: seq<nat>)
    requires WellFormed(v)
    ensures Texts(v, Merged(v, ids)) == Texts(v, ids) && |Merged(v, ids)| <= |ids|
    ensures Proper(v, ids) ==> Proper(v, Merged(v, ids))
    decreases |ids|
  {
    var best := Best(v, ids);
    if best.Some? && MergeAt(v, ids, best.value).Some? {
      MergeAtKeeps(v, ids, best.value);
      MergedKeeps(v, MergeAt(v, ids, best.value).value);
    }
  }

  /** No adjacent pair is ranked, or the best pair's text is not a token. */
  ghost predicate Final(v: Vocab, ids: seq<nat>) {
    || (forall j :: 0 <= j < |ids| - 1 ==> Rank(v, ids, j).None?)
    || (exists p :: BestButAbsent(v, ids, p))
  }

  ghost predicate BestButAbsent(v: Vocab, ids: seq<nat>, p: nat) {
    && p < |ids| - 1 && IsBest(v, ids, |ids| - 1, Some(p))
    && TextOf(v, ids[p]) + TextOf(v, ids[p + 1]) !in v.tokenToId
  }

  lemma StuckIsFinal(v: Vocab, ids: seq<nat>)
    requires WellFormed(v)
    requires Best(v, ids).Some? ==> MergeAt(v, ids, Best(v, ids).value).None?
    ensures Final(v, ids)
  {
    var best := Best(v, ids);
    if best.Some? {
      RankedInRange(v, ids);
      assert BestButAbsent(v, ids, best.value);
    } else if ids != [] {
      assert IsBest(v, ids, |ids| - 1, None);
    }
  }

  /** Merging stops only there. */
  lemma {:induction false} MergedIsFinal(v: Vocab, ids: seq<nat>)
    requires WellFormed(v)
    ensures Final(v, Merged(v, ids))
    decreases |ids|
  {
    var best := Best(v, ids);
    if best.Some? && MergeAt(v, ids, best.value).Some? {
      MergedIsFinal(v, MergeAt(v, ids, best.value).value);
    } else {
      StuckIsFinal(v, ids);
    }
  }

  // ----- the initial tokens

  /** Every byte's spelling is a token. */
  ghost predicate CoversBytes(v: Vocab) {
    forall b: Byte :: Shown(b) in v.tokenToId
  }

  ghost predicate NoFallbackEntries(v: Vocab) {
    forall i :: 0 <= i < |v.entries| ==> !v.entries[i].isByteFallback
  }

  /** The match at the start of `input`'s spelling takes exactly the first `k` characters. */
  predicate WholeAt(v: Vocab, input: seq<Byte>, k: nat) {
    var s := Spelled(input);
    var n := FirstMatch(v, s);
    && n > 0 && 0 < k <= |input| && s[..n] == Spelled(input[..k]) && s[n..] == Spelled(input[k..])
    && TextOf(v, v.tokenToId[s[..n]]) == s[..n]
  }

  ghost predicate MatchesWhole(v: Vocab, input: seq<Byte>) {
    exists k: nat :: WholeAt(v, input, k)
  }

  /** At the start of a character, a token always matches, and the match ends at the end of a character. */
  lemma MatchIsWhole(v: Vocab, input: seq<Byte>)
    requires WellFormed(v) && CoversBytes(v) && NoFallbackEntries(v) && input != []
    ensures MatchesWhole(v, input)
  {
    var s := Spelled(input);
    var n := FirstMatch(v, s);
    FirstByteMatches(v, input);
    assert s[..n] + s[n..] == s;
    var k := SpelledPrefix(s[..n], s[n..], input);
    assert WholeAt(v, input, k);
  }

  lemma FirstByteMatches(v: Vocab, input: seq<Byte>)
    requires WellFormed(v) && CoversBytes(v) && NoFallbackEntries(v) && input != []
    ensures var s := Spelled(input);
      FirstMatch(v, s) > 0 && ValidUtf8(s[..FirstMatch(v, s)])
  {
    assert input == [input[0]] + input[1..];
    SpelledCons(input[0], input[1..]);
    ShownIsOneChar(input[0], Spelled(input[1..]));
    DropFront(Shown(input[0]), Spelled(input[1..]));
    assert Spelled(input)[..|Shown(input[0])|] in v.tokenToId;
  }

  lemma SegmentsStep(v: Vocab, orig: seq<Byte>, bytes: seq<Byte>, i: nat, n: nat)
    requires |v.byteToToken| == 256 && i < |bytes| && n == FirstMatch(v, bytes[i..]) > 0
    ensures Segments(v, orig, bytes, i) == Prepend(v.tokenToId[bytes[i..][..n]], Segments(v, orig, bytes, i + n))
  {
  }

  lemma PrependTexts(v: Vocab, id: nat, rest: seq<nat>)
    requires Proper(v, rest) && TextOf(v, id) != []
    ensures Proper(v, [id] + rest) && Texts(v, [id] + rest) == TextOf(v, id) + Texts(v, rest)
  {
    assert ([id] + rest)[1..] == rest;
  }

  ghost predicate Covers(v: Vocab, ids: Option<seq<nat>>, text: seq<Byte>) {
    ids.Some? && Proper(v, ids.value) && Texts(v, ids.value) == text
  }

  lemma SegmentsCons(v: Vocab, orig: seq<Byte>, bytes: seq<Byte>, i: nat, s: seq<Byte>, n: nat, text: seq<Byte>)
    requires |v.byteToToken| == 256 && i < |bytes| && bytes[i..] == s && n == FirstMatch(v, s) > 0
    requires TextOf(v, v.tokenToId[s[..n]]) == s[..n]
    requires Covers(v, Segments(v, orig, bytes, i + n), text)
    ensures Covers(v, Segments(v, orig, bytes, i), s[..n] + text)
  {
    SegmentsStep(v, orig, bytes, i, n);
    PrependTexts(v, v.tokenToId[s[..n]], Segments(v, orig, bytes, i + n).value);
  }

  /** Segmentation loses nothing and never needs the fallback. */
  lemma {:induction false} SegmentsCover(v: Vocab, orig: seq<Byte>, bytes: seq<Byte>, i: nat, input: seq<Byte>)
    requires |v.byteToToken| == 256 && forall rest :: rest != [] ==> MatchesWhole(v, rest)
    requires i <= |bytes| && bytes[i..] == Spelled(input)
    ensures Covers(v, Segments(v, orig, bytes, i), Spelled(input))
    decreases |input|
  {
    if input != [] {
      assert MatchesWhole(v, input);
      var k: nat :| WholeAt(v, input, k);
      var s := Spelled(input);
      var n := FirstMatch(v, s);
      SliceTwice(bytes, i, n, s);
      SegmentsCover(v, orig, bytes, i + n, input[k..]);
      SegmentsCons(v, orig, bytes, i, s, n, s[n..]);
    }
  }

  lemma SliceTwice<T>(bytes: seq<T>, i: nat, n: nat, s: seq<T>)
    requires i <= |bytes| && s == bytes[i..] && n <= |s|
    ensures bytes[i + n..] == s[n..] && s[..n] + s[n..] == s
  {
  }

  // ----- decoding

  predicate Regular(v: Vocab, id: nat) {
    id < |v.entries| && v.entries[id].text != [] && !v.entries[id].isByteFallback && EntryFits(v.entries[id])
  }

  ghost predicate NothingSkipped(v: Vocab, ids: seq<nat>) {
    forall i :: 0 <= i < |ids| ==> !Skipped(v, ids[i])
  }

  lemma DecodedSnoc(v: Vocab, ids: seq<nat>, last: nat)
    requires Regular(v, last) && ValidUtf8(Texts(v, ids))
    ensures DecodedBytes(v, ids + [last]) == DecodedBytes(v, ids) + Contribution(v, last)
    ensures ValidUtf8(TextOf(v, last)) && Contribution(v, last) == if Skipped(v, last) then [] else Original(TextOf(v, last))
    ensures ValidUtf8(Texts(v, ids + [last])) && Original(TextOf(v, last)) != []
    ensures Original(Texts(v, ids + [last])) == Original(Texts(v, ids)) + Original(TextOf(v, last))
  {
    assert (ids + [last])[..|ids|] == ids;
    TextsConcat(v, ids, [last]);
    assert [last][1..] == [] && Texts(v, [last]) == TextOf(v, last);
    OriginalConcat(Texts(v, ids), TextOf(v, last));
    OriginalIsNotEmpty(TextOf(v, last));
  }

  /** What decoding adds is what the texts stand for, except where an id is skipped. */
  ghost predicate DecodesTexts(v: Vocab, ids: seq<nat>) {
    && ValidUtf8(Texts(v, ids))
    && |DecodedBytes(v, ids)| <= |Original(Texts(v, ids))|
    && if NothingSkipped(v, ids) then DecodedBytes(v, ids) == Original(Texts(v, ids))
       else |DecodedBytes(v, ids)| < |Original(Texts(v, ids))|
  }

  lemma DecodesOneMore(v: Vocab, ids: seq<nat>, last: nat)
    requires Regular(v, last) && DecodesTexts(v, ids)
    ensures DecodesTexts(v, ids + [last])
  {
    DecodedSnoc(v, ids, last);
    assert NothingSkipped(v, ids + [last]) <==> NothingSkipped(v, ids) && !Skipped(v, last) by {
      assert (ids + [last])[|ids|] == last;
      assert forall i :: 0 <= i < |ids| ==> (ids + [last])[i] == ids[i];
    }
  }

  lemma {:induction false} DecodedIsOriginal(v: Vocab, ids: seq<nat>)
    requires forall i :: 0 <= i < |ids| ==> Regular(v, ids[i])
    ensures DecodesTexts(v, ids)
    decreases |ids|
  {
    if ids != [] {
      DecodedIsOriginal(v, ids[..|ids| - 1]);
      DecodesUnsnoc(v, ids);
    }
  }

  lemma DecodesUnsnoc(v: Vocab, ids: seq<nat>)
    requires ids != [] && Regular(v, ids[|ids| - 1]) && DecodesTexts(v, ids[..|ids| - 1])
    ensures DecodesTexts(v, ids)
  {
    DecodesOneMore(v, ids[..|ids| - 1], ids[|ids| - 1]);
    assert ids == ids[..|ids| - 1] + [ids[|ids| - 1]];
  }

  lemma OriginalIsNotEmpty(s: seq<Byte>)
    requires ValidUtf8(s) && s != []
    ensures Original(s) != []
  {
    assert FirstOriginal(s) != [];
  }

  /** A text's initial tokens spell it. */
  lemma InitialCovers(v: Vocab, text: seq<Byte>)
    requires WellFormed(v) && CoversBytes(v) && NoFallbackEntries(v)
    ensures Covers(v, Segments(v, text, Spelled(text), 0), Spelled(text))
  {
    forall rest: seq<Byte> | rest != []
      ensures MatchesWhole(v, rest)
    {
      MatchIsWhole(v, rest);
    }
    assert Spelled(text)[0..] == Spelled(text);
    SegmentsCover(v, text, Spelled(text), 0, text);
  }

  /** Over a vocabulary that spells every byte and has no `<0xNN>` entries, encoding never fails, and its
      bytes come back exactly if no skipped id was produced. */
  lemma RoundTripIffNothingSkipped(v: Vocab, text: seq<Byte>)
    requires WellFormed(v) && CoversBytes(v) && NoFallbackEntries(v)
    ensures Encoded(v, text, false).Some?
    ensures var ids := Encoded(v, text, false).value;
      DecodedBytes(v, ids) == text <==> NothingSkipped(v, ids)
  {
    var bytes := Spelled(text);
    InitialCovers(v, text);
    var initial := Segments(v, text, bytes, 0).value;
    MergedKeeps(v, initial);
    assert [] + Merged(v, initial) == Merged(v, initial);
    DecodedIsOriginal(v, Merged(v, initial));
    OriginalOfSpelled(text);
  }

  /** A text whose spelling is itself a skipped token, such as a control token's name, decodes to nothing. */
  lemma SkippedSpellingIsLost(v: Vocab, text: seq<Byte>)
    requires WellFormed(v) && text != [] && |Spelled(text)| <= MAX_MATCH
    requires Spelled(text) in v.tokenToId && Skipped(v, v.tokenToId[Spelled(text)])
    ensures Encoded(v, text, false) == Some([v.tokenToId[Spelled(text)]])
    ensures DecodedBytes(v, Encoded(v, text, false).value) == [] != text
  {
    var id := v.tokenToId[Spelled(text)];
    OneSegment(v, text);
    assert Merged(v, [id]) == [id] && [] + [id] == [id];
    assert [id][..0] == [] && DecodedBytes(v, [id]) == [] + Contribution(v, id);
  }

  lemma OneSegment(v: Vocab, text: seq<Byte>)
    requires WellFormed(v) && text != [] && |Spelled(text)| <= MAX_MATCH && Spelled(text) in v.tokenToId
    ensures Segments(v, text, Spelled(text), 0) == Some([v.tokenToId[Spelled(text)]])
  {
    var s := Spelled(text);
    SpelledGrows(text, 0, |text|);
    assert text[..|text|] == text && s[0..] == s && s[..|s|] == s;
    assert FirstMatch(v, s) == |s|;
    SegmentsStep(v, text, s, 0, |s|);
    assert [v.tokenToId[s]] + [] == [v.tokenToId[s]];
  }

  /** The round trip on strings, with or without the start token. */
  lemma RoundTrip(v: Vocab, text: seq<Byte>, addBos: bool, lossy: seq<Byte> -> seq<Byte>)
    requires WellFormed(v) && CoversBytes(v) && NoFallbackEntries(v) && ValidUtf8(text)
    requires Encoded(v, text, false).Some? ==> NothingSkipped(v, Encoded(v, text, false).value)
    ensures Encoded(v, text, addBos).Some? && AsString(DecodedBytes(v, Encoded(v, text, addBos).value), lossy) == text
  {
    RoundTripIffNothingSkipped(v, text);
    var ids := Encoded(v, text, false).value;
    if addBos {
      var merged := Merged(v, Segments(v, text, Spelled(text), 0).value);
      assert [] + merged == merged;
      LeadingSkipped(v, TOKEN_BOS, merged);
    }
  }

  ghost predicate Inside(x: seq<Byte>, s: seq<Byte>) {
    exists i, j :: 0 <= i <= j <= |s| && s[i..j] == x
  }

  /** No part of the text's spelling is the text of a control token or of one of the three fixed ids. */
  ghost predicate NoSkippedInside(v: Vocab, text: seq<Byte>) {
    forall id: nat :: id < |v.entries| && Skipped(v, id) && v.entries[id].text != [] ==>
      !Inside(v.entries[id].text, Spelled(text))
  }

  lemma InsideBehind(x: seq<Byte>, front: seq<Byte>, s: seq<Byte>)
    requires Inside(x, s)
    ensures Inside(x, front + s)
  {
    var i, j :| 0 <= i <= j <= |s| && s[i..j] == x;
    var n := |front|;
    assert (front + s)[n + i..n + j] == x;
  }

  lemma InsideFront(x: seq<Byte>, s: seq<Byte>)
    ensures Inside(x, x + s)
  {
    assert (x + s)[0..|x|] == x;
  }

  lemma {:induction false} EachTextInside(v: Vocab, ids: seq<nat>, i: nat)
    requires i < |ids|
    ensures Inside(TextOf(v, ids[i]), Texts(v, ids))
    decreases i
  {
    if i == 0 {
      InsideFront(TextOf(v, ids[0]), Texts(v, ids[1..]));
    } else {
      EachTextInside(v, ids[1..], i - 1);
      InsideBehind(TextOf(v, ids[i]), TextOf(v, ids[0]), Texts(v, ids[1..]));
    }
  }

  /** Before encoding, the text alone shows that nothing will be skipped. */
  lemma NothingSkippedWhenNoneInside(v: Vocab, text: seq<Byte>)
    requires WellFormed(v) && CoversBytes(v) && NoFallbackEntries(v) && NoSkippedInside(v, text)
    ensures Encoded(v, text, false).Some? && NothingSkipped(v, Encoded(v, text, false).value)
  {
    InitialCovers(v, text);
    var initial := Segments(v, text, Spelled(text), 0).value;
    var ids := Merged(v, initial);
    MergedKeeps(v, initial);
    assert [] + ids == ids;
    forall i | 0 <= i < |ids|
      ensures !Skipped(v, ids[i])
    {
      EachTextInside(v, ids, i);
    }
  }

  /** The round trip for every string that spells no skipped token. */
  lemma RoundTripUnlessSkippedInside(v: Vocab, text: seq<Byte>, addBos: bool, lossy: seq<Byte> -> seq<Byte>)
    requires WellFormed(v) && CoversBytes(v) && NoFallbackEntries(v) && ValidUtf8(text) && NoSkippedInside(v, text)
    ensures Encoded(v, text, addBos).Some? && AsString(DecodedBytes(v, Encoded(v, text, addBos).value), lossy) == text
  {
    NothingSkippedWhenNoneInside(v, text);
    RoundTrip(v, text, addBos, lossy);
  }

  lemma {:induction false} LeadingSkipped(v: Vocab, id: nat, ids: seq<nat>)
    requires Skipped(v, id)
    ensures DecodedBytes(v, [id] + ids) == DecodedBytes(v, ids)
    decreases |ids|
  {
    var n := |ids| - 1;
    if ids == [] {
      assert [id] + ids == [id] && [id][..0] == [];
    } else {
      LeadingSkipped(v, id, ids[..n]);
      assert ([id] + ids)[..n + 1] == [id] + ids[..n];
    }
  }

  // ----- the fallback

  lemma {:induction false} PositionIsIndex(orig: seq<Byte>, j: nat, k: nat)
    requires j <= k < |orig|
    ensures Position(orig, |Spelled(orig[..k])|, j) == k
    decreases k - j
  {
    if j < k {
      SpelledGrows(orig, j, k);
      PositionIsIndex(orig, j + 1, k);
    }
  }

  lemma SpelledGrows(orig: seq<Byte>, j: nat, k: nat)
    requires j < k <= |orig|
    ensures |Spelled(orig[..j])| < |Spelled(orig[..k])|
  {
    assert orig[..k] == orig[..j] + ([orig[j]] + orig[j + 1..k]);
    SpelledConcat(orig[..j], [orig[j]] + orig[j + 1..k]);
    SpelledCons(orig[j], orig[j + 1..k]);
    ShownIsOneChar(orig[j], []);
    assert Shown(orig[j]) + [] == Shown(orig[j]);
  }

  /** Where no token matches the byte at index `k`, the id pushed is the one for byte value `k`: it is the
      byte's own exactly if the table cannot tell `k` from the byte, and past index 255 there is none. */
  lemma FallbackUsesThePosition(v: Vocab, orig: seq<Byte>, k: nat)
    requires |v.byteToToken| == 256 && k < |orig| && FirstMatch(v, Spelled(orig[k..])) == 0
    ensures var ids := Segments(v, orig, Spelled(orig), |Spelled(orig[..k])|);
      && (k >= 256 ==> ids.None?)
      && (k < 256 && ids.Some? ==>
           ids.value != [] && (ids.value[0] == v.byteToToken[orig[k]] <==> v.byteToToken[k] == v.byteToToken[orig[k]]))
  {
    PositionIsIndex(orig, 0, k);
    SpelledFrom(orig, k);
    FallbackStep(v, orig, Spelled(orig), |Spelled(orig[..k])|, k);
  }

  /** The spelling from the position of a byte on. */
  lemma SpelledFrom(orig: seq<Byte>, k: nat)
    requires k < |orig|
    ensures |Spelled(orig[..k])| < |Spelled(orig)| && Spelled(orig)[|Spelled(orig[..k])|..] == Spelled(orig[k..])
  {
    SpelledGrows(orig, k, |orig|);
    SpelledConcat(orig[..k], orig[k..]);
    assert orig[..|orig|] == orig == orig[..k] + orig[k..];
    DropFront(Spelled(orig[..k]), Spelled(orig[k..]));
  }

  lemma FallbackStep(v: Vocab, orig: seq<Byte>, bytes: seq<Byte>, i: nat, k: nat)
    requires |v.byteToToken| == 256 && i < |bytes| && FirstMatch(v, bytes[i..]) == 0
    requires k < |orig| && Position(orig, i, 0) == k
    ensures var ids := Segments(v, orig, bytes, i);
      && (k >= 256 ==> ids.None?)
      && (k < 256 && ids.Some? ==>
           ids.value != [] && (ids.value[0] == v.byteToToken[orig[k]] <==> v.byteToToken[k] == v.byteToToken[orig[k]]))
  {
  }
}
