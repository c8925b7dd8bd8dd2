/** The byte-pair merging that recovers a Qwen vocabulary's merge list. */
module QwenBpe {
  import opened Wrappers
  import opened Bytes

  type Ranks = map<seq<Byte>, int>

  /** `maxRank` None is Python's None: no limit. */
  predicate Below(rank: int, maxRank: Option<int>) {
    maxRank.None? || rank < maxRank.value
  }

  function Rank(ranks: Ranks, parts: seq<seq<Byte>>, i: nat): Option<int>
    requires i + 1 < |parts|
  {
    var pair := parts[i] + parts[i + 1];
    if pair in ranks then Some(ranks[pair]) else None
  }

  /** The leftmost pair of lowest rank among the first `n`. */
  function Lowest(ranks: Ranks, parts: seq<seq<Byte>>, n: nat): (r: Option<nat>)
    requires n == 0 || n < |parts|
    ensures r.None? ==> forall j :: 0 <= j < n ==> Rank(ranks, parts, j).None?
    ensures r.Some? ==> r.value < n && Rank(ranks, parts, r.value).Some?
    ensures r.Some? ==> forall j :: 0 <= j < n && Rank(ranks, parts, j).Some? ==>
      var (p, q) := (Rank(ranks, parts, r.value).value, Rank(ranks, parts, j).value);
      if j < r.value then p < q else p <= q
  {
    if n == 0 then None
    else
      var best := Lowest(ranks, parts, n - 1);
      var rank := Rank(ranks, parts, n - 1);
      if rank.Some? && (best.None? || rank.value < Rank(ranks, parts, best.value).value) then Some(n - 1) else best
  }

  function Next(ranks: Ranks, parts: seq<seq<Byte>>, maxRank: Option<int>): (r: Option<nat>)
    ensures r.Some? ==> r.value + 1 < |parts| && Rank(ranks, parts, r.value).Some?
  {
    var best := Lowest(ranks, parts, if parts == [] then 0 else |parts| - 1);
    if best.Some? && Below(Rank(ranks, parts, best.value).value, maxRank) then best else None
  }

  function MergeAt(parts: seq<seq<Byte>>, i: nat): (r: seq<seq<Byte>>)
    requires i + 1 < |parts|
    ensures |r| == |parts| - 1
  {
    parts[..i] + [parts[i] + parts[i + 1]] + parts[i + 2..]
  }

  /** Merge until no pair is left that may be merged. */
  function Merged(ranks: Ranks, parts: seq<seq<Byte>>, maxRank: Option<int>): seq<seq<Byte>>
    decreases |parts|
  {
    var best := Next(ranks, parts, maxRank);
    if best.None? then parts else Merged(ranks, MergeAt(parts, best.value), maxRank)
  }

  function Singles(token: seq<Byte>): seq<seq<Byte>> {
    seq(|token|, i requires 0 <= i < |token| => [token[i]])
  }

  method Bpe(ranks: Ranks, token: seq<Byte>, maxRank: Option<int>) returns (parts: seq<seq<Byte>>)
    ensures parts == Merged(ranks, Singles(token), maxRank)
  {
    parts := Singles(token);
    while true
      invariant Merged(ranks, Singles(token), maxRank) == Merged(ranks, parts, maxRank)
      decreases |parts|
    {
      var minIdx: Option<nat> := None;
      var minRank := 0;
      for i := 0 to if parts == [] then 0 else |parts| - 1
        invariant minIdx == Lowest(ranks, parts, i)
        invariant minIdx.Some? ==> minRank == Rank(ranks, parts, minIdx.value).value
      {
        var rank := Rank(ranks, parts, i);
        if rank.Some? && (minIdx.None? || rank.value < minRank) {
          minIdx, minRank := Some(i), rank.value;
        }
      }
      if minIdx.None? || (maxRank.Some? && minRank >= maxRank.value) {
        return;
      }
      parts := MergeAt(parts, minIdx.value);
    }
  }

  function Joined(parts: seq<seq<Byte>>): seq<Byte> {
    if parts == [] then [] else parts[0] + Joined(parts[1..])
  }

  lemma {:induction false} JoinedConcat(a: seq<seq<Byte>>, b: seq<seq<Byte>>)
    ensures Joined(a + b) == Joined(a) + Joined(b)
    decreases |a|
  {
    if a == [] {
      assert a + b == b;
    } else {
      JoinedConcat(a[1..], b);
      assert (a + b)[1..] == a[1..] + b;
      Associative(a[0], Joined(a[1..]), Joined(b));
    }
  }

  lemma MergeJoins(parts: seq<seq<Byte>>, i: nat)
    requires i + 1 < |parts|
    ensures Joined(MergeAt(parts, i)) == Joined(parts)
  {
    var x, y := [parts[i] + parts[i + 1]], [parts[i], parts[i + 1]];
    PairJoins(parts[i], parts[i + 1]);
    SwapJoined(parts[..i], x, y, parts[i + 2..]);
    SplitPair(parts, i);
  }

  lemma SplitPair<T>(s: seq<T>, i: nat)
    requires i + 1 < |s|
    ensures s == s[..i] + [s[i], s[i + 1]] + s[i + 2..]
  {
  }

  lemma SwapJoined(a: seq<seq<Byte>>, x: seq<seq<Byte>>, y: seq<seq<Byte>>, b: seq<seq<Byte>>)
    requires Joined(x) == Joined(y)
    ensures Joined(a + x + b) == Joined(a + y + b)
  {
    JoinedConcat(a + x, b);
    JoinedConcat(a + y, b);
    JoinedConcat(a, x);
    JoinedConcat(a, y);
  }

  lemma PairJoins(x: seq<Byte>, y: seq<Byte>)
    ensures Joined([x, y]) == Joined([x + y])
  {
    assert [x, y][1..] == [y] && [y][1..] == [] && [x + y][1..] == [];
    assert Joined([y]) == y + [];
  }

  lemma {:induction false} SinglesJoin(token: seq<Byte>)
    ensures Joined(Singles(token)) == token
    decreases |token|
  {
    if token != [] {
      SinglesJoin(token[1..]);
      assert Singles(token)[1..] == Singles(token[1..]);
      assert token == [token[0]] + token[1..];
    }
  }

  /** A single byte, or a token that may be merged to. */
  predicate Allowed(ranks: Ranks, maxRank: Option<int>, part: seq<Byte>) {
    |part| == 1 || (part in ranks && Below(ranks[part], maxRank))
  }

  lemma {:induction false} MergedFacts(ranks: Ranks, parts: seq<seq<Byte>>, maxRank: Option<int>)
    requires forall i :: 0 <= i < |parts| ==> Allowed(ranks, maxRank, parts[i])
    ensures var r := Merged(ranks, parts, maxRank);
      && Joined(r) == Joined(parts)
      && (forall i :: 0 <= i < |r| ==> Allowed(ranks, maxRank, r[i]))
      && Next(ranks, r, maxRank).None?
    decreases |parts|
  {
    var best := Next(ranks, parts, maxRank);
    if best.Some? {
      var shorter := MergeAt(parts, best.value);
      MergeJoins(parts, best.value);
      forall i | 0 <= i < |shorter|
        ensures Allowed(ranks, maxRank, shorter[i])
      {
        assert i < best.value ==> shorter[i] == parts[i];
        assert i > best.value ==> shorter[i] == parts[i + 1];
      }
      MergedFacts(ranks, shorter, maxRank);
    }
  }

  /** The bytes are kept, every part is a byte or a mergeable token, and no adjacent pair is left to merge. */
  lemma BpeIsComplete(ranks: Ranks, token: seq<Byte>, maxRank: Option<int>)
    ensures var r := Merged(ranks, Singles(token), maxRank);
      && Joined(r) == token
      && (forall i :: 0 <= i < |r| ==> Allowed(ranks, maxRank, r[i]))
      && (forall i :: 0 <= i < |r| - 1 ==> Rank(ranks, r, i).None? || !Below(Rank(ranks, r, i).value, maxRank))
  {
    SinglesJoin(token);
    MergedFacts(ranks, Singles(token), maxRank);
    var r := Merged(ranks, Singles(token), maxRank);
    if r != [] {
      assert Next(ranks, r, maxRank).None?;
    }
  }

  // ----- the merges as a run

  predicate HasRank(ranks: Ranks, parts: seq<seq<Byte>>, i: nat, rank: int) {
    i + 1 < |parts| && parts[i] + parts[i + 1] in ranks && ranks[parts[i] + parts[i + 1]] == rank
  }

  /** The neighbours at `i` have the lowest rank, below the limit if there is one, and none before them have the same. */
  ghost predicate IsLowest(ranks: Ranks, parts: seq<seq<Byte>>, maxRank: Option<int>, i: nat, rank: int) {
    && HasRank(ranks, parts, i, rank) && (maxRank.Some? ==> rank < maxRank.value)
    && forall j: nat, other :: HasRank(ranks, parts, j, other) ==> rank <= other && (j < i ==> rank < other)
  }

  /** The neighbours at `i` become one part. */
  predicate JoinsAt(parts: seq<seq<Byte>>, i: nat, shorter: seq<seq<Byte>>) {
    && i + 1 < |parts| && |shorter| == |parts| - 1 && shorter[i] == parts[i] + parts[i + 1]
    && (forall j :: 0 <= j < i ==> shorter[j] == parts[j]) && (forall j :: i < j < |shorter| ==> shorter[j] == parts[j + 1])
  }

  ghost predicate JoinsLowest(ranks: Ranks, parts: seq<seq<Byte>>, maxRank: Option<int>, i: nat, shorter: seq<seq<Byte>>) {
    JoinsAt(parts, i, shorter) && exists rank :: IsLowest(ranks, parts, maxRank, i, rank)
  }

  ghost predicate IsStep(ranks: Ranks, parts: seq<seq<Byte>>, maxRank: Option<int>, shorter: seq<seq<Byte>>) {
    exists i: nat :: JoinsLowest(ranks, parts, maxRank, i, shorter)
  }

  ghost predicate Ended(ranks: Ranks, parts: seq<seq<Byte>>, maxRank: Option<int>) {
    forall shorter :: !IsStep(ranks, parts, maxRank, shorter)
  }

  /** A series of merges that cannot go on. */
  ghost predicate IsRun(ranks: Ranks, parts: seq<seq<Byte>>, maxRank: Option<int>, run: seq<seq<seq<Byte>>>) {
    && run != [] && run[0] == parts && (forall i :: 0 <= i < |run| - 1 ==> IsStep(ranks, run[i], maxRank, run[i + 1]))
    && Ended(ranks, run[|run| - 1], maxRank)
  }

  lemma NextIsLowest(ranks: Ranks, parts: seq<seq<Byte>>, maxRank: Option<int>, i: nat, rank: int)
    ensures IsLowest(ranks, parts, maxRank, i, rank) ==> Next(ranks, parts, maxRank) == Some(i)
    ensures Next(ranks, parts, maxRank) == Some(i) && HasRank(ranks, parts, i, rank) ==> IsLowest(ranks, parts, maxRank, i, rank)
  {
    var best := Lowest(ranks, parts, if parts == [] then 0 else |parts| - 1);
    forall j: nat, other | HasRank(ranks, parts, j, other)
      ensures Rank(ranks, parts, j) == Some(other) && best.Some?
    {
    }
    if best.Some? {
      assert HasRank(ranks, parts, best.value, Rank(ranks, parts, best.value).value);
    }
  }

  lemma StepIsNext(ranks: Ranks, parts: seq<seq<Byte>>, maxRank: Option<int>, shorter: seq<seq<Byte>>)
    ensures IsStep(ranks, parts, maxRank, shorter) <==>
      Next(ranks, parts, maxRank).Some? && MergeAt(parts, Next(ranks, parts, maxRank).value) == shorter
  {
    var next := Next(ranks, parts, maxRank);
    forall i: nat | JoinsLowest(ranks, parts, maxRank, i, shorter)
      ensures next == Some(i) && MergeAt(parts, i) == shorter
    {
      var rank :| IsLowest(ranks, parts, maxRank, i, rank);
      NextIsLowest(ranks, parts, maxRank, i, rank);
      assert shorter == MergeAt(parts, i);
    }
    if next.Some? && MergeAt(parts, next.value) == shorter {
      var rank := Rank(ranks, parts, next.value).value;
      assert HasRank(ranks, parts, next.value, rank);
      NextIsLowest(ranks, parts, maxRank, next.value, rank);
      assert JoinsLowest(ranks, parts, maxRank, next.value, shorter);
    }
  }

  /** The parts are the end of the run that always merges the leftmost neighbours of lowest rank. */
  lemma {:induction false} MergedIsARun(ranks: Ranks, parts: seq<seq<Byte>>, maxRank: Option<int>) returns (run: seq<seq<seq<Byte>>>)
    ensures IsRun(ranks, parts, maxRank, run) && run[|run| - 1] == Merged(ranks, parts, maxRank)
    decreases |parts|
  {
    var next := Next(ranks, parts, maxRank);
    if next.Some? {
      var shorter := MergeAt(parts, next.value);
      var rest := MergedIsARun(ranks, shorter, maxRank);
      StepIsNext(ranks, parts, maxRank, shorter);
      run := [parts] + rest;
      forall i | 0 <= i < |run| - 1
        ensures IsStep(ranks, run[i], maxRank, run[i + 1])
      {
        assert i > 0 ==> run[i] == rest[i - 1];
        assert run[i + 1] == rest[i];
      }
      assert run[|run| - 1] == rest[|rest| - 1];
    } else {
      forall shorter
        ensures !IsStep(ranks, parts, maxRank, shorter)
      {
        StepIsNext(ranks, parts, maxRank, shorter);
      }
      run := [parts];
    }
  }

  /** There is only one such run. */
  lemma {:induction false} RunIsMerged(ranks: Ranks, parts: seq<seq<Byte>>, maxRank: Option<int>, run: seq<seq<seq<Byte>>>)
    requires IsRun(ranks, parts, maxRank, run)
    ensures run[|run| - 1] == Merged(ranks, parts, maxRank)
    decreases |run|
  {
    if |run| > 1 {
      assert IsStep(ranks, run[0], maxRank, run[1]);
      StepIsNext(ranks, parts, maxRank, run[1]);
      forall i | 0 <= i < |run| - 2
        ensures IsStep(ranks, run[1..][i], maxRank, run[1..][i + 1])
      {
        assert IsStep(ranks, run[i + 1], maxRank, run[i + 2]);
      }
      RunIsMerged(ranks, run[1], maxRank, run[1..]);
    } else if Next(ranks, parts, maxRank).Some? {
      StepIsNext(ranks, parts, maxRank, MergeAt(parts, Next(ranks, parts, maxRank).value));
    }
  }
}
