/** What a file of n-gram counts says, position by position. */
module NgramFile {
  import opened Wrappers
  import opened NgramCache

  /** The tokens come first, then as many -1 as are missing to four. */
  lemma NgramIs(w: seq<int>)
    requires |w| <= 4
    ensures w <= NgramOf(w) && |NgramOf(w)| == 4 && forall i :: |w| <= i < 4 ==> NgramOf(w)[i] == -1
  {
  }

  // ----- one entry

  /** The first `n` pairs are all there, with positive counts. */
  predicate HasPairs(s: seq<int>, n: nat) {
    2 * n <= |s| && forall i :: 0 <= i < n ==> s[2 * i + 1] > 0
  }

  /** Pair `i` is the first one of token `t`, and says `count`. */
  predicate PairSays(s: seq<int>, n: nat, i: nat, t: int, count: int) {
    && i < n && 2 * n <= |s| && s[2 * i] == t && s[2 * i + 1] == count
    && forall j :: 0 <= j < i ==> s[2 * j] != t
  }

  ghost predicate PairsSay(s: seq<int>, n: nat, t: int, count: int) {
    exists i: nat :: PairSays(s, n, i, t, count)
  }

  predicate Holds(p: Part, t: int, count: int) {
    t in p && p[t] == count
  }

  lemma {:induction false} PairsThere(s: seq<int>, n: nat, acc: Part)
    ensures LoadPart(s, n, acc).Some? <==> HasPairs(s, n)
    ensures LoadPart(s, n, acc).Some? ==> LoadPart(s, n, acc).value.1 == s[2 * n..]
    decreases n
  {
    if n > 0 && |s| >= 2 && s[1] > 0 {
      var tail := s[2..];
      PairsThere(tail, n - 1, if s[0] in acc then acc else acc[s[0] := s[1]]);
      assert forall i :: 0 <= i < |tail| ==> tail[i] == s[i + 2];
      if HasPairs(tail, n - 1) {
        forall i | 0 <= i < n
          ensures s[2 * i + 1] > 0
        {
          assert i > 0 ==> tail[2 * (i - 1) + 1] > 0;
        }
        assert tail[2 * (n - 1)..] == s[2 * n..];
      }
      if HasPairs(s, n) {
        forall i | 0 <= i < n - 1
          ensures tail[2 * i + 1] > 0
        {
          assert s[2 * (i + 1) + 1] > 0;
        }
      }
    }
  }

  lemma TailSays(s: seq<int>, n: nat, t: int, count: int)
    requires n > 0 && 2 * n <= |s|
    ensures PairsSay(s, n, t, count) <==> if s[0] == t then s[1] == count else PairsSay(s[2..], n - 1, t, count)
  {
    var tail := s[2..];
    assert forall i :: 0 <= i < |tail| ==> tail[i] == s[i + 2];
    if s[0] == t {
      assert s[1] == count ==> PairSays(s, n, 0, t, count);
      forall i: nat
        ensures PairSays(s, n, i, t, count) ==> i == 0
      {
        assert s[2 * 0] == t;
      }
    } else {
      if PairsSay(tail, n - 1, t, count) {
        var i: nat :| PairSays(tail, n - 1, i, t, count);
        forall j | 0 <= j < i + 1
          ensures s[2 * j] != t
        {
          assert j > 0 ==> tail[2 * (j - 1)] != t;
        }
        assert PairSays(s, n, i + 1, t, count);
      }
      forall i: nat | PairSays(s, n, i, t, count)
        ensures i > 0 && PairSays(tail, n - 1, i - 1, t, count)
      {
        forall j | 0 <= j < i - 1
          ensures tail[2 * j] != t
        {
          assert s[2 * (j + 1)] != t;
        }
      }
    }
  }

  lemma {:induction false} LoadedPairs(s: seq<int>, n: nat, acc: Part, t: int, count: int)
    requires HasPairs(s, n)
    ensures LoadPart(s, n, acc).Some?
    ensures Holds(LoadPart(s, n, acc).value.0, t, count) <==> if t in acc then acc[t] == count else PairsSay(s, n, t, count)
    decreases n
  {
    PairsThere(s, n, acc);
    if n > 0 {
      var more := if s[0] in acc then acc else acc[s[0] := s[1]];
      PairsThere(s[2..], n - 1, more);
      LoadedPairs(s[2..], n - 1, more, t, count);
      TailSays(s, n, t, count);
    }
  }

  // ----- the file

  /** Four tokens, the number of pairs, and the pairs. */
  predicate IsEntry(s: seq<int>, from: nat, to: nat) {
    from + 5 <= |s| && s[from + 4] > 0 && to == from + 5 + 2 * s[from + 4] && HasPairs(s[from + 5..], s[from + 4])
  }

  /** Entries from `start` on, and fewer than four numbers behind them. */
  predicate IsFile(s: seq<int>, start: nat, cuts: seq<nat>) {
    && cuts != [] && cuts[0] == start && cuts[|cuts| - 1] <= |s| < cuts[|cuts| - 1] + 4
    && forall i :: 0 <= i < |cuts| - 1 ==> IsEntry(s, cuts[i], cuts[i + 1])
  }

  predicate StartsWith(s: seq<int>, from: nat, g: Ngram) {
    from + 4 <= |s| && s[from..from + 4] == g
  }

  /** Entry `e` is the first one of the n-gram, and says that the token followed it `count` times. */
  ghost predicate EntrySays(s: seq<int>, cuts: seq<nat>, e: nat, g: Ngram, t: int, count: int) {
    && e < |cuts| - 1 && IsEntry(s, cuts[e], cuts[e + 1]) && StartsWith(s, cuts[e], g)
    && PairsSay(s[cuts[e] + 5..], s[cuts[e] + 4], t, count)
    && forall f :: 0 <= f < e ==> !StartsWith(s, cuts[f], g)
  }

  ghost predicate FileSays(s: seq<int>, cuts: seq<nat>, g: Ngram, t: int, count: int) {
    exists e: nat :: EntrySays(s, cuts, e, g, t, count)
  }

  predicate Counted(c: Counts, g: Ngram, t: int, count: int) {
    g in c && Holds(c[g], t, count)
  }

  function With(acc: Counts, g: Ngram, part: Part): Counts {
    if g in acc then acc else acc[g := part]
  }

  lemma EntryLoads(s: seq<int>, from: nat, to: nat, acc: Counts)
    requires from <= |s| && IsEntry(s, from, to)
    ensures var n, pairs := s[from + 4], s[from + 5..];
      LoadPart(pairs, n, map[]).Some? && from < to <= |s| &&
      LoadFrom(s[from..], acc) == LoadFrom(s[to..], With(acc, s[from..from + 4], LoadPart(pairs, n, map[]).value.0))
  {
    var rest, n, pairs := s[from..], s[from + 4], s[from + 5..];
    PairsThere(pairs, n, map[]);
    assert rest[..4] == s[from..from + 4] && rest[5..] == pairs && rest[4] == n;
    assert pairs[2 * n..] == s[to..];
  }

  /** A file loads exactly if it is a series of entries. */
  lemma {:induction false} FileLoads(s: seq<int>, from: nat, cuts: seq<nat>, acc: Counts)
    requires IsFile(s, from, cuts) && from <= |s|
    ensures LoadFrom(s[from..], acc).Some?
    decreases |cuts|
  {
    if |cuts| > 1 {
      assert IsEntry(s, cuts[0], cuts[1]);
      EntryLoads(s, from, cuts[1], acc);
      var part := LoadPart(s[from + 5..], s[from + 4], map[]).value.0;
      TailIsFile(s, from, cuts);
      FileLoads(s, cuts[1], cuts[1..], With(acc, s[from..from + 4], part));
    }
  }

  lemma TailIsFile(s: seq<int>, from: nat, cuts: seq<nat>)
    requires IsFile(s, from, cuts) && |cuts| > 1
    ensures IsFile(s, cuts[1], cuts[1..])
  {
    var tail := cuts[1..];
    forall i | 0 <= i < |tail| - 1
      ensures IsEntry(s, tail[i], tail[i + 1])
    {
      assert IsEntry(s, cuts[i + 1], cuts[i + 2]);
    }
  }

  lemma {:induction false} LoadedIsFile(s: seq<int>, from: nat, acc: Counts) returns (cuts: seq<nat>)
    requires from <= |s| && LoadFrom(s[from..], acc).Some?
    ensures IsFile(s, from, cuts)
    decreases |s| - from
  {
    var rest := s[from..];
    if |rest| < 4 {
      cuts := [from];
    } else {
      var n := rest[4];
      assert n == s[from + 4] > 0 && rest[5..] == s[from + 5..];
      PairsThere(s[from + 5..], n, map[]);
      var to := from + 5 + 2 * n;
      EntryLoads(s, from, to, acc);
      var part := LoadPart(s[from + 5..], n, map[]).value.0;
      var tail := LoadedIsFile(s, to, With(acc, s[from..from + 4], part));
      cuts := [from] + tail;
      forall i | 0 <= i < |cuts| - 1
        ensures IsEntry(s, cuts[i], cuts[i + 1])
      {
        assert i > 0 ==> IsEntry(s, tail[i - 1], tail[i]);
      }
    }
  }

  lemma FirstEntrySays(s: seq<int>, cuts: seq<nat>, g: Ngram, t: int, count: int)
    requires |cuts| > 1 && IsFile(s, cuts[0], cuts) && IsEntry(s, cuts[0], cuts[1])
    ensures FileSays(s, cuts, g, t, count) <==>
      if StartsWith(s, cuts[0], g) then PairsSay(s[cuts[0] + 5..], s[cuts[0] + 4], t, count) else FileSays(s, cuts[1..], g, t, count)
  {
    var tail := cuts[1..];
    if StartsWith(s, cuts[0], g) {
      assert PairsSay(s[cuts[0] + 5..], s[cuts[0] + 4], t, count) ==> EntrySays(s, cuts, 0, g, t, count);
      assert forall e: nat :: EntrySays(s, cuts, e, g, t, count) ==> e == 0;
    } else {
      forall e: nat | EntrySays(s, tail, e, g, t, count)
        ensures EntrySays(s, cuts, e + 1, g, t, count)
      {
        forall f | 0 <= f < e + 1
          ensures !StartsWith(s, cuts[f], g)
        {
          assert f > 0 ==> !StartsWith(s, tail[f - 1], g);
        }
      }
      forall e: nat | EntrySays(s, cuts, e, g, t, count)
        ensures e > 0 && EntrySays(s, tail, e - 1, g, t, count)
      {
        forall f | 0 <= f < e - 1
          ensures !StartsWith(s, tail[f], g)
        {
          assert !StartsWith(s, cuts[f + 1], g);
        }
      }
    }
  }

  /** What is loaded is what the file says, the first entry of an n-gram and the first pair of a token counting. */
  lemma {:induction false} LoadedIsSaid(s: seq<int>, cuts: seq<nat>, acc: Counts, g: Ngram, t: int, count: int)
    requires cuts != [] && IsFile(s, cuts[0], cuts) && cuts[0] <= |s|
    ensures LoadFrom(s[cuts[0]..], acc).Some?
    ensures Counted(LoadFrom(s[cuts[0]..], acc).value, g, t, count) <==>
      if g in acc then Holds(acc[g], t, count) else FileSays(s, cuts, g, t, count)
    decreases |cuts|
  {
    var from := cuts[0];
    FileLoads(s, from, cuts, acc);
    if |cuts| == 1 {
      assert forall e: nat :: !EntrySays(s, cuts, e, g, t, count);
    } else {
      assert IsEntry(s, from, cuts[1]);
      EntryLoads(s, from, cuts[1], acc);
      var part := LoadPart(s[from + 5..], s[from + 4], map[]).value.0;
      TailIsFile(s, from, cuts);
      LoadedIsSaid(s, cuts[1..], With(acc, s[from..from + 4], part), g, t, count);
      LoadedPairs(s[from + 5..], s[from + 4], map[], t, count);
      FirstEntrySays(s, cuts, g, t, count);
    }
  }

  /** The whole file. */
  lemma LoadIsTheFile(s: seq<int>)
    ensures LoadFrom(s, map[]).Some? <==> exists cuts :: IsFile(s, 0, cuts)
    ensures forall cuts, g, t, count :: IsFile(s, 0, cuts) ==>
      (Counted(LoadFrom(s, map[]).value, g, t, count) <==> FileSays(s, cuts, g, t, count))
  {
    assert s[0..] == s;
    if LoadFrom(s, map[]).Some? {
      var cuts := LoadedIsFile(s, 0, map[]);
    }
    forall cuts | IsFile(s, 0, cuts)
      ensures LoadFrom(s, map[]).Some?
    {
      FileLoads(s, 0, cuts, map[]);
    }
    forall cuts, g, t, count | IsFile(s, 0, cuts)
      ensures Counted(LoadFrom(s, map[]).value, g, t, count) <==> FileSays(s, cuts, g, t, count)
    {
      LoadedIsSaid(s, cuts, map[], g, t, count);
    }
  }
}
