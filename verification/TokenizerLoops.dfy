/** The tokenizer's loops, each proved to compute its specification. */
module TokenizerLoops {
  import opened Wrappers
  import opened Bytes
  import opened Gpt2Bytes
  import opened Tokenizer

  /** `EmptyByteToken` is the index panic on a byte-type token without text. */
  datatype TokenizerError = VocabSizeMismatch(tokens: nat, scores: nat) | EmptyByteToken

  datatype Built = Ready(vocab: Vocab) | Failed(error: TokenizerError)

  predicate HasEmptyByteToken(entries: seq<Entry>) {
    exists i :: 0 <= i < |entries| && entries[i].tokenType == BYTE && entries[i].text == []
  }

  method FromGgufParts(tokens: seq<seq<Byte>>, scores: seq<real>, types: seq<nat>, merges: seq<seq<Byte>>) returns (r: Built)
    requires |tokens| < U32_MAX
    ensures scores != [] && |scores| != |tokens| ==> r == Failed(VocabSizeMismatch(|tokens|, |scores|))
    ensures scores == [] || |scores| == |tokens| ==>
      var entries := Entries(tokens, types);
      r == if HasEmptyByteToken(entries) then Failed(EmptyByteToken) else Ready(Build(entries, merges))
  {
    if scores != [] && |scores| != |tokens| {
      return Failed(VocabSizeMismatch(|tokens|, |scores|));
    }
    var entries, tokenToId := BuildEntries(tokens, types);
    ReprIsNoKey(tokens, types);
    var mergeRank := BuildRanks(tokenToId, merges);
    var byteToToken := BuildByteTable(entries, tokenToId);
    if byteToToken.None? {
      return Failed(EmptyByteToken);
    }
    var stopIds := BuildStopIds(tokenToId);
    r := Ready(Vocab(entries, tokenToId, mergeRank, byteToToken.value, stopIds));
  }

  method BuildEntries(tokens: seq<seq<Byte>>, types: seq<nat>) returns (vocab: seq<Entry>, tokenToId: map<seq<Byte>, nat>)
    ensures vocab == Entries(tokens, types) && tokenToId == Ids(vocab)
  {
    vocab, tokenToId := [], map[];
    for i := 0 to |tokens|
      invariant vocab == Entries(tokens, types)[..i] && tokenToId == Ids(vocab)
    {
      var entry := EntryOf(tokens[i], if i < |types| then types[i] else NORMAL);
      tokenToId := tokenToId[entry.text := i];
      assert (vocab + [entry])[..i] == vocab;
      vocab := vocab + [entry];
    }
  }

  method BuildRanks(tokenToId: map<seq<Byte>, nat>, merges: seq<seq<Byte>>) returns (mergeRank: map<(nat, nat), nat>)
    ensures mergeRank == Ranks(tokenToId, merges)
  {
    mergeRank := map[];
    for rank := 0 to |merges|
      invariant mergeRank == Ranks(tokenToId, merges[..rank])
    {
      assert merges[..rank + 1][..rank] == merges[..rank];
      var pair := MergePair(tokenToId, merges[rank]);
      if pair.Some? {
        mergeRank := mergeRank[pair.value := rank];
      }
    }
    assert merges[..|merges|] == merges;
  }

  /** The byte table while it is filled: the sentinel marks bytes no entry stands for. */
  function ByteIdOr(entries: seq<Entry>, b: Byte, none: nat): nat {
    if entries == [] then none
    else
      var n := |entries| - 1;
      if IsByteEntry(entries[n]) && entries[n].text != [] && entries[n].text[0] == b then n else ByteIdOr(entries[..n], b, none)
  }

  lemma {:induction false} SentinelMarksGaps(entries: seq<Entry>, b: Byte)
    requires |entries| < U32_MAX
    ensures ByteId(entries, b) == if ByteIdOr(entries, b, U32_MAX) == U32_MAX then 0 else ByteIdOr(entries, b, U32_MAX)
  {
    if entries != [] {
      SentinelMarksGaps(entries[..|entries| - 1], b);
    }
  }

  function HexChar(d: nat): Byte
    requires d < 16
  {
    if d < 10 then 48 + d else 55 + d
  }

  /** A byte as `<0xNN>`. */
  function Repr(b: Byte): seq<Byte> {
    [60, 48, 120, HexChar(b / 16), HexChar(b % 16), 62]
  }

  lemma ReprParses(b: Byte)
    ensures ParseByteToken(Repr(b)) == Some(b)
  {
    var s := Repr(b);
    assert s[..3] == [60, 48, 120];
    assert s[3..|s| - 1] == [HexChar(b / 16), HexChar(b % 16)];
    assert s[3..|s| - 1][1..] == [HexChar(b % 16)];
    assert [HexChar(b % 16)][1..] == [];
    assert HexByte([HexChar(b % 16)], b / 16) == Some(b);
  }

  lemma NoTextIsRepr(token: seq<Byte>, tokenType: nat, b: Byte)
    ensures EntryOf(token, tokenType).text != Repr(b)
  {
    ReprParses(b);
  }

  /** Looking a gap's `<0xNN>` up can never succeed: such tokens are stored under the byte they stand for. */
  lemma ReprIsNoKey(tokens: seq<seq<Byte>>, types: seq<nat>)
    ensures forall b: Byte :: Repr(b) !in Ids(Entries(tokens, types))
  {
    var entries := Entries(tokens, types);
    IdsAreRight(entries);
    forall b: Byte
      ensures Repr(b) !in Ids(entries)
    {
      forall i | 0 <= i < |tokens|
        ensures entries[i].text != Repr(b)
      {
        NoTextIsRepr(tokens[i], if i < |types| then types[i] else NORMAL, b);
      }
    }
  }

  method BuildByteTable(entries: seq<Entry>, tokenToId: map<seq<Byte>, nat>) returns (table: Option<seq<nat>>)
    requires |entries| < U32_MAX && forall b: Byte :: Repr(b) !in tokenToId
    ensures table == if HasEmptyByteToken(entries) then None else Some(ByteTable(entries))
  {
    var byteToToken := new nat[256](b => U32_MAX);
    for id := 0 to |entries|
      invariant forall i :: 0 <= i < id ==> !(entries[i].tokenType == BYTE && entries[i].text == [])
      invariant forall b: Byte :: byteToToken[b] == ByteIdOr(entries[..id], b, U32_MAX)
    {
      assert entries[..id + 1][..id] == entries[..id];
      if IsByteEntry(entries[id]) {
        if entries[id].text == [] {
          return None;
        }
        byteToToken[entries[id].text[0]] := id;
      }
    }
    assert entries[..|entries|] == entries;
    FillGaps(byteToToken, entries, tokenToId);
    assert byteToToken[..] == ByteTable(entries);
    table := Some(byteToToken[..]);
  }

  method FillGaps(byteToToken: array<nat>, ghost entries: seq<Entry>, tokenToId: map<seq<Byte>, nat>)
    requires byteToToken.Length == 256 && |entries| < U32_MAX && forall b: Byte :: Repr(b) !in tokenToId
    requires forall b: Byte :: byteToToken[b] == ByteIdOr(entries, b, U32_MAX)
    modifies byteToToken
    ensures forall b: Byte :: byteToToken[b] == ByteId(entries, b)
  {
    for b := 0 to 256
      invariant forall c: Byte :: byteToToken[c] == if c < b then ByteId(entries, c) else ByteIdOr(entries, c, U32_MAX)
    {
      SentinelMarksGaps(entries, b);
      if byteToToken[b] == U32_MAX {
        byteToToken[b] := if Repr(b) in tokenToId then tokenToId[Repr(b)] else 0;
      }
    }
  }

  method BuildStopIds(tokenToId: map<seq<Byte>, nat>) returns (stopIds: seq<nat>)
    ensures stopIds == StopIds(tokenToId)
  {
    var strings := StopStrings();
    stopIds := [];
    for i := 0 to |strings|
      invariant stopIds + Known(tokenToId, strings[i..]) == Known(tokenToId, strings)
    {
      assert strings[i..][1..] == strings[i + 1..];
      if strings[i] in tokenToId {
        stopIds := stopIds + [tokenToId[strings[i]]];
      }
    }
    assert strings[|strings|..] == [];
    if stopIds == [] {
      stopIds := [TOKEN_EOS, TOKEN_EOT];
    }
  }

  // ----- encoding

  /** From the longest candidate down. */
  method FindMatch(v: Vocab, s: seq<Byte>) returns (n: nat)
    ensures n == FirstMatch(v, s)
  {
    var maxLen := if |s| < MAX_MATCH then |s| else MAX_MATCH;
    n := maxLen;
    while n > 0
      invariant n <= maxLen && FirstMatch(v, s) == LongestMatch(v, s, n)
    {
      if s[..n] in v.tokenToId {
        return;
      }
      n := n - 1;
    }
  }

  lemma CharLenIsLength(b: Byte, rest: seq<Byte>)
    ensures Gpt2CharLen((Shown(b) + rest)[0]) == |Shown(b)|
  {
    SymbolsAreShort(b);
  }

  method OrigByteAt(orig: seq<Byte>, gpt2: seq<Byte>, gpt2Pos: nat) returns (r: nat)
    requires gpt2 == Spelled(orig)
    ensures r == Position(orig, gpt2Pos, 0)
  {
    var g := 0;
    for k := 0 to |orig|
      invariant g == |Spelled(orig[..k])| && Position(orig, gpt2Pos, 0) == Position(orig, gpt2Pos, k)
    {
      if g == gpt2Pos {
        return k;
      }
      NextCharacter(orig, k);
      g := g + Gpt2CharLen(gpt2[g]);
    }
    r := 0;
  }

  lemma NextCharacter(orig: seq<Byte>, k: nat)
    requires k < |orig|
    ensures var g := |Spelled(orig[..k])|;
      g < |Spelled(orig)| && g + Gpt2CharLen(Spelled(orig)[g]) == |Spelled(orig[..k + 1])|
  {
    assert orig == orig[..k] + ([orig[k]] + orig[k + 1..]) && orig[..k + 1] == orig[..k] + [orig[k]];
    SpelledConcat(orig[..k], [orig[k]] + orig[k + 1..]);
    SpelledCons(orig[k], orig[k + 1..]);
    SpelledSnoc(orig[..k], orig[k]);
    ShownIsOneChar(orig[k], Spelled(orig[k + 1..]));
    CharLenIsLength(orig[k], Spelled(orig[k + 1..]));
  }

  /** The token at the cursor and how far it reaches; None where the byte table is indexed out of bounds. */
  method NextSegment(v: Vocab, text: seq<Byte>, bytes: seq<Byte>, i: nat) returns (r: Option<(nat, nat)>)
    requires |v.byteToToken| == 256 && i < |bytes| && bytes == Spelled(text)
    ensures match r
      case None => Segments(v, text, bytes, i).None?
      case Some((id, step)) => step > 0 && Segments(v, text, bytes, i) == Prepend(id, Segments(v, text, bytes, i + step))
  {
    var len := FindMatch(v, bytes[i..]);
    if len > 0 {
      return Some((v.tokenToId[bytes[i..][..len]], len));
    }
    var p := OrigByteAt(text, bytes, i);
    if p >= 256 {
      return None;
    }
    return Some((v.byteToToken[p], Gpt2CharLen(bytes[i])));
  }

  /** One segment more, or None where the byte table is indexed out of bounds. */
  method TakeSegment(v: Vocab, text: seq<Byte>, bytes: seq<Byte>, i: nat, out: seq<nat>, ghost goal: Option<seq<nat>>)
    returns (r: Option<(seq<nat>, nat)>)
    requires |v.byteToToken| == 256 && i < |bytes| && bytes == Spelled(text)
    requires goal == Behind(out, Segments(v, text, bytes, i))
    ensures r.None? ==> goal.None?
    ensures r.Some? ==> r.value.1 > i && goal == Behind(r.value.0, Segments(v, text, bytes, r.value.1))
  {
    var next := NextSegment(v, text, bytes, i);
    if next.None? {
      return None;
    }
    var (id, step) := next.value;
    BehindPrepend(out, id, Segments(v, text, bytes, i + step));
    r := Some((out + [id], i + step));
  }

  method InitialTokenise(v: Vocab, text: seq<Byte>) returns (r: Option<seq<nat>>)
    requires |v.byteToToken| == 256
    ensures r == Segments(v, text, Spelled(text), 0)
  {
    var bytes := BytesToGpt2Unicode(text);
    var out := [];
    var i := 0;
    ghost var goal := Segments(v, text, bytes, 0);
    BehindNothing(goal);
    while i < |bytes|
      invariant goal == Behind(out, Segments(v, text, bytes, i))
      decreases |bytes| - i
    {
      var taken := TakeSegment(v, text, bytes, i, out, goal);
      if taken.None? {
        return None;
      }
      out, i := taken.value.0, taken.value.1;
    }
    BehindEnd(out);
    r := Some(out);
  }

  /** The scan for the best pair, left to right. */
  method FindBest(v: Vocab, ids: seq<nat>) returns (best: Option<nat>)
    requires |ids| >= 2
    ensures best == Best(v, ids)
  {
    var bestRank := U32_MAX;
    best := None;
    for i := 0 to |ids| - 1
      invariant best == BestPair(v, ids, i)
      invariant bestRank == if best.Some? then Rank(v, ids, best.value).value else U32_MAX
    {
      var pair := (ids[i], ids[i + 1]);
      if pair in v.mergeRank {
        var rank := v.mergeRank[pair];
        if rank < bestRank {
          bestRank := rank;
          best := Some(i);
        }
      }
    }
  }

  /** The pair at `p` replaced by the token for both texts, if there is one. */
  method MergePairAt(v: Vocab, ids: seq<nat>, p: nat) returns (r: Option<seq<nat>>)
    requires p + 1 < |ids| && ids[p] < |v.entries| && ids[p + 1] < |v.entries|
    ensures r == MergeAt(v, ids, p)
  {
    var mergedText := v.entries[ids[p]].text + v.entries[ids[p + 1]].text;
    if mergedText in v.tokenToId {
      r := Some(ids[..p] + [v.tokenToId[mergedText]] + ids[p + 2..]);
    } else {
      r := None;
    }
  }

  method BpeMerge(v: Vocab, initial: seq<nat>) returns (ids: seq<nat>)
    requires WellFormed(v)
    ensures ids == Merged(v, initial)
  {
    ids := initial;
    while |ids| >= 2
      invariant Merged(v, initial) == Merged(v, ids)
      decreases |ids|
    {
      var best := FindBest(v, ids);
      if best.None? {
        break;
      }
      var merged := MergePairAt(v, ids, best.value);
      if merged.None? {
        break;
      }
      ids := merged.value;
    }
  }

  method Encode(v: Vocab, text: seq<Byte>, addBos: bool) returns (r: Option<seq<nat>>)
    requires WellFormed(v)
    ensures r == Encoded(v, text, addBos)
  {
    var ids: seq<nat> := [];
    if addBos {
      ids := ids + [TOKEN_BOS];
    }
    assert ids == if addBos then [TOKEN_BOS] else [];
    var working := InitialTokenise(v, text);
    if working.None? {
      return None;
    }
    var merged := BpeMerge(v, working.value);
    ids := ids + merged;
    r := Some(ids);
  }

  // ----- decoding

  method Decode(v: Vocab, ids: seq<nat>, lossy: seq<Byte> -> seq<Byte>) returns (text: seq<Byte>)
    ensures text == AsString(DecodedBytes(v, ids), lossy)
  {
    var bytes: seq<Byte> := [];
    for i := 0 to |ids|
      invariant bytes == DecodedBytes(v, ids[..i])
    {
      var id := ids[i];
      assert ids[..i + 1][..i] == ids[..i];
      if id == TOKEN_BOS || id == TOKEN_EOS || id == TOKEN_PAD {
        continue;
      }
      if id >= |v.entries| {
        continue;
      }
      var entry := v.entries[id];
      if entry.tokenType == CONTROL {
        continue;
      }
      if entry.isByteFallback {
        bytes := bytes + entry.text;
      } else if ValidUtf8(entry.text) {
        var original := Gpt2UnicodeToOriginalBytes(entry.text);
        bytes := bytes + original;
      }
    }
    assert ids[..|ids|] == ids;
    text := if ValidUtf8(bytes) then bytes else lossy(bytes);
  }
}
