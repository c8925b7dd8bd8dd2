/** The byte-level BPE tokenizer: construction from vocabulary tables, encoding, decoding. */
module Tokenizer {
  import opened Wrappers
  import opened Bytes
  import opened Gpt2Bytes

  const TOKEN_BOS: nat := 128_000
  const TOKEN_EOS: nat := 128_001
  const TOKEN_EOT: nat := 128_009
  const TOKEN_PAD: nat := 128_004

  const U32_MAX: nat := 0xFFFF_FFFF

  const NORMAL: nat := 1
  const CONTROL: nat := 3
  const BYTE: nat := 6

  datatype Entry = Entry(text: seq<Byte>, tokenType: nat, isByteFallback: bool)

  datatype Vocab = Vocab(
    entries: seq<Entry>,
    tokenToId: map<seq<Byte>, nat>,
    mergeRank: map<(nat, nat), nat>,
    byteToToken: seq<nat>,
    stopIds: seq<nat>)

  // ----- construction

  function HexByte(digits: seq<Byte>, acc: Byte): Option<Byte>
    decreases |digits|
  {
    if digits == [] then Some(acc)
    else
      var d :- HexDigit(digits[0]);
      if 16 * acc + d < 256 then HexByte(digits[1..], 16 * acc + d) else None
  }

  const PLUS: Byte := 43

  /** `<0xNN>`; as in Rust, a plus sign and leading zeros are accepted. */
  function ParseByteToken(s: seq<Byte>): Option<Byte> {
    if |s| < 4 || s[..3] != [60, 48, 120] || s[|s| - 1] != 62 then None
    else
      var inner := s[3..|s| - 1];
      var digits := if inner != [] && inner[0] == PLUS then inner[1..] else inner;
      if digits == [] then None else HexByte(digits, 0)
  }

  function EntryOf(token: seq<Byte>, tokenType: nat): Entry {
    match ParseByteToken(token)
    case Some(b) => Entry([b], tokenType, true)
    case None => Entry(token, tokenType, false)
  }

  /** A later entry with the same text replaces an earlier one. */
  function Ids(entries: seq<Entry>): map<seq<Byte>, nat> {
    if entries == [] then map[]
    else Ids(entries[..|entries| - 1])[entries[|entries| - 1].text := |entries| - 1]
  }

  const SPACE: Byte := 32

  /** The parts before and after the first space. */
  function SplitOnce(s: seq<Byte>, i: nat): Option<(seq<Byte>, seq<Byte>)>
    requires i <= |s|
    decreases |s| - i
  {
    if i == |s| then None
    else if s[i] == SPACE then Some((s[..i], s[i + 1..]))
    else SplitOnce(s, i + 1)
  }

  function MergePair(ids: map<seq<Byte>, nat>, merge: seq<Byte>): Option<(nat, nat)> {
    match SplitOnce(merge, 0)
    case Some((left, right)) => if left in ids && right in ids then Some((ids[left], ids[right])) else None
    case None => None
  }

  function Ranks(ids: map<seq<Byte>, nat>, merges: seq<seq<Byte>>): map<(nat, nat), nat> {
    if merges == [] then map[]
    else
      var n := |merges| - 1;
      match MergePair(ids, merges[n])
      case Some(pair) => Ranks(ids, merges[..n])[pair := n]
      case None => Ranks(ids, merges[..n])
  }

  predicate IsByteEntry(e: Entry) {
    e.tokenType == BYTE || (|e.text| == 1 && e.tokenType != NORMAL)
  }

  /** The last entry that stands for byte `b`; 0 if there is none. */
  function ByteId(entries: seq<Entry>, b: Byte): nat {
    if entries == [] then 0
    else
      var n := |entries| - 1;
      if IsByteEntry(entries[n]) && entries[n].text != [] && entries[n].text[0] == b then n else ByteId(entries[..n], b)
  }

  function ByteTable(entries: seq<Entry>): (t: seq<nat>)
    ensures |t| == 256
  {
    seq(256, b requires 0 <= b < 256 => ByteId(entries, b))
  }

  function StopStrings(): seq<seq<Byte>> {
    [[60, 124, 101, 110, 100, 95, 111, 102, 95, 116, 101, 120, 116, 124, 62],
     [60, 124, 101, 111, 116, 95, 105, 100, 124, 62],
     [60, 124, 101, 110, 100, 111, 102, 116, 101, 120, 116, 124, 62],
     [60, 124, 105, 109, 95, 101, 110, 100, 124, 62],
     [60, 47, 115, 62],
     [60, 124, 101, 110, 100, 124, 62]]
  }

  function Known(ids: map<seq<Byte>, nat>, strings: seq<seq<Byte>>): seq<nat> {
    if strings == [] then []
    else (if strings[0] in ids then [ids[strings[0]]] else []) + Known(ids, strings[1..])
  }

  function StopIds(ids: map<seq<Byte>, nat>): seq<nat> {
    var known := Known(ids, StopStrings());
    if known == [] then [TOKEN_EOS, TOKEN_EOT] else known
  }

  function Entries(tokens: seq<seq<Byte>>, types: seq<nat>): (e: seq<Entry>)
    ensures |e| == |tokens|
  {
    seq(|tokens|, i requires 0 <= i < |tokens| => EntryOf(tokens[i], if i < |types| then types[i] else NORMAL))
  }

  function Build(entries: seq<Entry>, merges: seq<seq<Byte>>): Vocab {
    var ids := Ids(entries);
    Vocab(entries, ids, Ranks(ids, merges), ByteTable(entries), StopIds(ids))
  }

  /** What every constructed vocabulary satisfies; the token strings are Rust strings, hence valid UTF-8. */
  ghost predicate WellFormed(v: Vocab) {
    && (forall s :: s in v.tokenToId ==> v.tokenToId[s] < |v.entries| && v.entries[v.tokenToId[s]].text == s)
    && (forall i :: 0 <= i < |v.entries| ==> v.entries[i].text in v.tokenToId)
    && (forall p :: p in v.mergeRank ==> p.0 < |v.entries| && p.1 < |v.entries|)
    && |v.byteToToken| == 256
    && (forall i :: 0 <= i < |v.entries| ==> EntryFits(v.entries[i]))
  }

  predicate EntryFits(e: Entry) {
    if e.isByteFallback then |e.text| == 1 else ValidUtf8(e.text)
  }

  lemma {:induction false} IdsAreRight(entries: seq<Entry>)
    ensures forall s :: s in Ids(entries) ==> Ids(entries)[s] < |entries| && entries[Ids(entries)[s]].text == s
    ensures forall i :: 0 <= i < |entries| ==> entries[i].text in Ids(entries)
  {
    if entries != [] {
      IdsAreRight(entries[..|entries| - 1]);
      assert forall i :: 0 <= i < |entries| - 1 ==> entries[i] == entries[..|entries| - 1][i];
    }
  }

  lemma {:induction false} RanksAreRight(entries: seq<Entry>, merges: seq<seq<Byte>>)
    ensures forall p :: p in Ranks(Ids(entries), merges) ==> p.0 < |entries| && p.1 < |entries|
  {
    if merges != [] {
      RanksAreRight(entries, merges[..|merges| - 1]);
      IdsAreRight(entries);
    }
  }

  lemma BuildIsWellFormed(tokens: seq<seq<Byte>>, types: seq<nat>, merges: seq<seq<Byte>>)
    requires forall i :: 0 <= i < |tokens| ==> ValidUtf8(tokens[i])
    ensures WellFormed(Build(Entries(tokens, types), merges))
  {
    var entries := Entries(tokens, types);
    var v := Build(entries, merges);
    IdsAreRight(entries);
    RanksAreRight(entries, merges);
    assert forall i :: 0 <= i < |entries| ==> EntryFits(v.entries[i]);
  }

  // ----- encoding

  const MAX_MATCH: nat := 64

  /** The longest prefix of `s` of at most `len` bytes that is a token; 0 if none is. */
  function LongestMatch(v: Vocab, s: seq<Byte>, len: nat): (n: nat)
    requires len <= |s|
    ensures n <= len && (n > 0 ==> s[..n] in v.tokenToId)
    ensures forall m :: n < m <= len ==> s[..m] !in v.tokenToId
  {
    if len == 0 then 0
    else if s[..len] in v.tokenToId then len
    else LongestMatch(v, s, len - 1)
  }

  function FirstMatch(v: Vocab, s: seq<Byte>): (n: nat)
    ensures n <= |s| && (n > 0 ==> s[..n] in v.tokenToId)
  {
    LongestMatch(v, s, if |s| < MAX_MATCH then |s| else MAX_MATCH)
  }

  function Gpt2CharLen(firstByte: Byte): nat {
    if firstByte < 0x80 then 1 else if firstByte < 0xE0 then 2 else 3
  }

  /** The index, from `k` on, of the byte whose spelling starts at `pos`; 0 if none does. */
  function Position(orig: seq<Byte>, pos: nat, k: nat): nat
    requires k <= |orig|
    decreases |orig| - k
  {
    if k == |orig| then 0
    else if |Spelled(orig[..k])| == pos then k
    else Position(orig, pos, k + 1)
  }

  /** The initial tokens of `bytes[i..]`. None stands for an index out of the byte table's bounds: the
      fallback looks the byte's position up instead of the byte. */
  function Segments(v: Vocab, orig: seq<Byte>, bytes: seq<Byte>, i: nat): Option<seq<nat>>
    requires |v.byteToToken| == 256
    decreases |bytes| - i
  {
    if i >= |bytes| then Some([])
    else
      var rest := bytes[i..];
      var n := FirstMatch(v, rest);
      if n > 0 then Prepend(v.tokenToId[rest[..n]], Segments(v, orig, bytes, i + n))
      else
        var p := Position(orig, i, 0);
        if p >= 256 then None
        else Prepend(v.byteToToken[p], Segments(v, orig, bytes, i + Gpt2CharLen(bytes[i])))
  }

  /** The rank of the pair at `j`, unless it is unranked. */
  function Rank(v: Vocab, ids: seq<nat>, j: nat): Option<nat>
    requires j + 1 < |ids|
  {
    var pair := (ids[j], ids[j + 1]);
    if pair in v.mergeRank && v.mergeRank[pair] < U32_MAX then Some(v.mergeRank[pair]) else None
  }

  /** The leftmost pair of lowest rank among the first `n`. */
  ghost predicate IsBest(v: Vocab, ids: seq<nat>, n: nat, best: Option<nat>)
    requires n == 0 || n < |ids|
  {
    match best
    case None => forall j :: 0 <= j < n ==> Rank(v, ids, j).None?
    case Some(p) =>
      && p < n && Rank(v, ids, p).Some?
      && forall j :: 0 <= j < n && Rank(v, ids, j).Some? ==>
           var (r, q) := (Rank(v, ids, p).value, Rank(v, ids, j).value);
           if j < p then r < q else r <= q
  }

  function BestPair(v: Vocab, ids: seq<nat>, n: nat): (best: Option<nat>)
    requires n == 0 || n < |ids|
    ensures IsBest(v, ids, n, best)
  {
    if n == 0 then None
    else
      var best := BestPair(v, ids, n - 1);
      var rank := Rank(v, ids, n - 1);
      if rank.Some? && (best.None? || rank.value < Rank(v, ids, best.value).value) then Some(n - 1) else best
  }

  /** The whole list's best pair. */
  function Best(v: Vocab, ids: seq<nat>): (best: Option<nat>)
    ensures best.Some? ==> best.value + 1 < |ids| && Rank(v, ids, best.value).Some?
  {
    BestPair(v, ids, if ids == [] then 0 else |ids| - 1)
  }

  /** The list with the pair at `p` merged; None if the concatenation is not a token. */
  function MergeAt(v: Vocab, ids: seq<nat>, p: nat): (r: Option<seq<nat>>)
    requires p + 1 < |ids| && ids[p] < |v.entries| && ids[p + 1] < |v.entries|
    ensures r.Some? ==> |r.value| == |ids| - 1
  {
    var text := v.entries[ids[p]].text + v.entries[ids[p + 1]].text;
    if text in v.tokenToId then Some(ids[..p] + [v.tokenToId[text]] + ids[p + 2..]) else None
  }

  function Merged(v: Vocab, ids: seq<nat>): seq<nat>
    requires WellFormed(v)
    decreases |ids|
  {
    var best := Best(v, ids);
    if best.None? then ids
    else match MergeAt(v, ids, best.value)
      case None => ids
      case Some(shorter) => Merged(v, shorter)
  }

  function Encoded(v: Vocab, text: seq<Byte>, addBos: bool): Option<seq<nat>>
    requires WellFormed(v)
  {
    match Segments(v, text, Spelled(text), 0)
    case None => None
    case Some(ids) => Some((if addBos then [TOKEN_BOS] else []) + Merged(v, ids))
  }

  // ----- decoding

  predicate Skipped(v: Vocab, id: nat) {
    id == TOKEN_BOS || id == TOKEN_EOS || id == TOKEN_PAD || id >= |v.entries| || v.entries[id].tokenType == CONTROL
  }

  /** The bytes one id adds to the decoded text. */
  function Contribution(v: Vocab, id: nat): seq<Byte> {
    if Skipped(v, id) then []
    else if v.entries[id].isByteFallback then v.entries[id].text
    else if ValidUtf8(v.entries[id].text) then Original(v.entries[id].text)
    else []
  }

  function DecodedBytes(v: Vocab, ids: seq<nat>): seq<Byte> {
    if ids == [] then [] else DecodedBytes(v, ids[..|ids| - 1]) + Contribution(v, ids[|ids| - 1])
  }

  /** The bytes as a string; `lossy` stands for the standard library's replacement of invalid sequences. */
  function AsString(bytes: seq<Byte>, lossy: seq<Byte> -> seq<Byte>): seq<Byte> {
    if ValidUtf8(bytes) then bytes else lossy(bytes)
  }
}
