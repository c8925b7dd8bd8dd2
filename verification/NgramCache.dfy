/** How often each token followed each n-gram: kept up to date incrementally, merged, saved and loaded. */
module NgramCache {
  import opened Wrappers

  const NGRAM_MIN: nat := 1
  const NGRAM_MAX: nat := 4

  type Ngram = seq<int>

  type Part = map<int, int>

  type Counts = map<Ngram, Part>

  /** Up to four tokens, padded with -1. */
  function NgramOf(tokens: seq<int>): (g: Ngram)
    ensures |g| == NGRAM_MAX
  {
    seq(NGRAM_MAX, i requires 0 <= i < NGRAM_MAX => if i < |tokens| then tokens[i] else -1)
  }

  function PartCount(p: Part, t: int): int {
    if t in p then p[t] else 0
  }

  function Lookup(c: Counts, g: Ngram, t: int): int {
    if g in c then PartCount(c[g], t) else 0
  }

  /** No part is empty and no count is zero. */
  ghost predicate Proper(c: Counts) {
    forall g :: g in c ==> |g| == NGRAM_MAX && ProperPart(c[g])
  }

  ghost predicate ProperPart(p: Part) {
    (exists t :: t in p) && forall t :: t in p ==> p[t] > 0
  }

  /** Such a table is determined by its counts. */
  lemma CountsDetermine(c: Counts, d: Counts)
    requires Proper(c) && Proper(d) && forall g, t :: Lookup(c, g, t) == Lookup(d, g, t)
    ensures c == d
  {
    CountsCover(c, d);
    CountsCover(d, c);
  }

  lemma CountsCover(c: Counts, d: Counts)
    requires Proper(c) && Proper(d) && forall g, t :: Lookup(c, g, t) == Lookup(d, g, t)
    ensures forall g :: g in c ==> g in d && c[g] == d[g]
  {
    forall g | g in c
      ensures g in d && c[g] == d[g]
    {
      assert ProperPart(c[g]);
      var t :| t in c[g];
      assert Lookup(c, g, t) == Lookup(d, g, t);
      assert ProperPart(d[g]);
      forall u
        ensures u in c[g] <==> u in d[g]
        ensures u in c[g] ==> c[g][u] == d[g][u]
      {
        assert Lookup(c, g, u) == Lookup(d, g, u);
      }
    }
  }

  // ----- the simple count

  /** Token `i` is `t`, and the `size` tokens before it are `g`. */
  predicate Follows(inp: seq<int>, size: nat, i: nat, g: Ngram, t: int) {
    size <= i < |inp| && inp[i] == t && NgramOf(inp[i - size..i]) == g
  }

  /** The positions in `[from, to)` at which `t` follows `g`. */
  function Occurrences(inp: seq<int>, size: nat, from: nat, end: nat, g: Ngram, t: int): nat
    decreases end
  {
    if end <= from then 0
    else Occurrences(inp, size, from, end - 1, g, t) + if Follows(inp, size, end - 1, g, t) then 1 else 0
  }

  /** All sizes from `min` to `max`. */
  function Total(inp: seq<int>, min: nat, max: int, from: nat, g: Ngram, t: int): nat
    decreases max
  {
    if max < min then 0 else Total(inp, min, max - 1, from, g, t) + Occurrences(inp, max, from, |inp|, g, t)
  }

  lemma {:induction false} OccurrencesSplit(inp: seq<int>, size: nat, mid: nat, end: nat, g: Ngram, t: int)
    requires mid <= end
    ensures Occurrences(inp, size, 0, end, g, t) == Occurrences(inp, size, 0, mid, g, t) + Occurrences(inp, size, mid, end, g, t)
    decreases end
  {
    if mid < end {
      OccurrencesSplit(inp, size, mid, end - 1, g, t);
    }
  }

  lemma {:induction false} OccurrencesPrefix(inp: seq<int>, more: seq<int>, size: nat, end: nat, g: Ngram, t: int)
    requires end <= |inp|
    ensures Occurrences(inp + more, size, 0, end, g, t) == Occurrences(inp, size, 0, end, g, t)
    decreases end
  {
    if end > 0 {
      OccurrencesPrefix(inp, more, size, end - 1, g, t);
      if size <= end - 1 {
        assert (inp + more)[end - 1 - size..end - 1] == inp[end - 1 - size..end - 1];
      }
    }
  }

  /** Counting the appended positions only, on top of the count before, is counting everything. */
  lemma {:induction false} TotalAppend(inp: seq<int>, more: seq<int>, min: nat, max: int, g: Ngram, t: int)
    ensures Total(inp + more, min, max, 0, g, t) == Total(inp, min, max, 0, g, t) + Total(inp + more, min, max, |inp|, g, t)
    decreases max
  {
    if max >= min {
      TotalAppend(inp, more, min, max - 1, g, t);
      OccurrencesSplit(inp + more, max, |inp|, |inp + more|, g, t);
      OccurrencesPrefix(inp, more, max, |inp|, g, t);
    }
  }

  lemma {:induction false} TooEarly(inp: seq<int>, size: nat, from: nat, end: nat, g: Ngram, t: int)
    requires end <= size
    ensures Occurrences(inp, size, from, end, g, t) == 0
    decreases end
  {
    if end > from {
      TooEarly(inp, size, from, end - 1, g, t);
    }
  }

  ghost predicate AddsSize(before: Counts, after: Counts, inp: seq<int>, size: nat, from: nat, end: nat) {
    Proper(after) && forall g, t :: Lookup(after, g, t) == Lookup(before, g, t) + Occurrences(inp, size, from, end, g, t)
  }

  ghost predicate Incremented(before: Counts, after: Counts, ngram: Ngram, token: int) {
    forall g, t :: Lookup(after, g, t) == Lookup(before, g, t) + if g == ngram && t == token then 1 else 0
  }

  /** Positions before `size`, or before `from`, do not count. */
  lemma NoneYet(c: Counts, inp: seq<int>, size: nat, from: nat, end: nat)
    requires Proper(c) && (end <= from || end <= size)
    ensures AddsSize(c, c, inp, size, from, end)
  {
    forall g, t
      ensures Occurrences(inp, size, from, end, g, t) == 0
    {
      if end <= size {
        TooEarly(inp, size, from, end, g, t);
      }
    }
  }

  lemma OneMoreAt(start: Counts, before: Counts, after: Counts, inp: seq<int>, size: nat, from: nat, i: nat, g: Ngram, t: int)
    requires from <= i < |inp| && size <= i && AddsSize(start, before, inp, size, from, i)
    requires Incremented(before, after, NgramOf(inp[i - size..i]), inp[i])
    ensures Lookup(after, g, t) == Lookup(start, g, t) + Occurrences(inp, size, from, i + 1, g, t)
  {
    var ngram, token := NgramOf(inp[i - size..i]), inp[i];
    assert Follows(inp, size, i, g, t) <==> g == ngram && t == token;
    assert Lookup(after, g, t) == Lookup(before, g, t) + if g == ngram && t == token then 1 else 0;
    assert Lookup(before, g, t) == Lookup(start, g, t) + Occurrences(inp, size, from, i, g, t);
  }

  lemma OneMore(start: Counts, before: Counts, after: Counts, inp: seq<int>, size: nat, from: nat, i: nat)
    requires from <= i < |inp| && size <= i && AddsSize(start, before, inp, size, from, i) && Proper(after)
    requires Incremented(before, after, NgramOf(inp[i - size..i]), inp[i])
    ensures AddsSize(start, after, inp, size, from, i + 1)
  {
    forall g, t {
      OneMoreAt(start, before, after, inp, size, from, i, g, t);
    }
  }

  class NgramTable {
    var counts: Counts

    constructor ()
      ensures counts == map[]
    {
      counts := map[];
    }

    /** One more occurrence of `token` behind `ngram`. */
    method Increment(ngram: Ngram, token: int)
      requires Proper(counts) && |ngram| == NGRAM_MAX
      modifies this
      ensures Proper(counts) && Incremented(old(counts), counts, ngram, token)
    {
      if ngram !in counts {
        var part: Part := map[token := 1];
        assert token in part;
        counts := counts[ngram := part];
      } else if token !in counts[ngram] {
        assert ProperPart(counts[ngram]);
        var part := counts[ngram][token := 1];
        assert token in part;
        counts := counts[ngram := part];
      } else {
        assert ProperPart(counts[ngram]);
        var part := counts[ngram][token := counts[ngram][token] + 1];
        assert token in part;
        counts := counts[ngram := part];
      }
    }

    /** The n-grams of one size that end in `[from, |inp|)`. */
    method UpdateSize(inp: seq<int>, size: nat, from: nat)
      requires Proper(counts) && NGRAM_MIN <= size <= NGRAM_MAX && from <= |inp|
      modifies this
      ensures AddsSize(old(counts), counts, inp, size, from, |inp|)
    {
      var i := if from > size then from else size;
      NoneYet(counts, inp, size, from, if i < |inp| then i else |inp|);
      if i >= |inp| {
        return;
      }
      while i < |inp|
        invariant from <= i <= |inp| && size <= i
        invariant AddsSize(old(counts), counts, inp, size, from, i)
      {
        CountAt(inp, size, i, from, old(counts));
        i := i + 1;
      }
    }

    /** The n-gram that ends before position `i`, and the token there. */
    method CountAt(inp: seq<int>, size: nat, i: nat, ghost from: nat, ghost start: Counts)
      requires from <= i < |inp| && size <= i && AddsSize(start, counts, inp, size, from, i)
      modifies this
      ensures AddsSize(start, counts, inp, size, from, i + 1)
    {
      ghost var before := counts;
      var ngram, token := NgramOf(inp[i - size..i]), inp[i];
      Increment(ngram, token);
      OneMore(start, before, counts, inp, size, from, i);
    }

    /** `nnew` tokens have been appended to `inp` since the last call. */
    method Update(ngramMin: nat, ngramMax: nat, inp: seq<int>, nnew: nat)
      requires Proper(counts) && NGRAM_MIN <= ngramMin && ngramMax <= NGRAM_MAX
      modifies this
      ensures var from := if nnew <= |inp| then |inp| - nnew else 0;
        && Adds(old(counts), counts, inp, ngramMin, ngramMax, from)
        && (Represents(old(counts), inp[..from], ngramMin, ngramMax) ==> Represents(counts, inp, ngramMin, ngramMax))
    {
      ghost var before := counts;
      var from := if nnew <= |inp| then |inp| - nnew else 0;
      var size := ngramMin;
      NoSizes(before, inp, ngramMin, from);
      while size <= ngramMax
        invariant NGRAM_MIN <= size && (ngramMin <= ngramMax ==> size <= ngramMax + 1) && (ngramMin > ngramMax ==> size == ngramMin)
        invariant Adds(before, counts, inp, ngramMin, size - 1, from)
      {
        UpdateSize(inp, size, from);
        size := size + 1;
      }
      if ngramMin > ngramMax {
        NoSizesAtAll(before, inp, ngramMin, ngramMax, from);
      }
      if Represents(before, inp[..from], ngramMin, ngramMax) {
        AppendRepresents(before, counts, inp, from, ngramMin, ngramMax);
      }
    }

    /** Add another table's counts to this one's. */
    method Merge(add: Counts)
      requires Proper(counts) && Proper(add)
      modifies this
      ensures Proper(counts) && forall g, t :: Lookup(counts, g, t) == Lookup(old(counts), g, t) + Lookup(add, g, t)
    {
      var todo := add.Keys;
      while todo != {}
        invariant todo <= add.Keys && Proper(counts)
        invariant forall g, t :: Lookup(counts, g, t) == Lookup(old(counts), g, t) + if g in todo then 0 else Lookup(add, g, t)
        decreases |todo|
      {
        var ngram :| ngram in todo;
        todo := todo - {ngram};
        if ngram !in counts {
          counts := counts[ngram := add[ngram]];
        } else {
          var merged := MergePart(counts[ngram], add[ngram]);
          counts := counts[ngram := merged];
        }
      }
    }
  }

  lemma SomeMember(s: set<int>)
    ensures s == {} || exists x :: x in s
  {
    if forall x :: x !in s {
      assert s == {};
    }
  }

  method MergePart(target: Part, part: Part) returns (merged: Part)
    requires ProperPart(target) && ProperPart(part)
    ensures ProperPart(merged) && forall t :: PartCount(merged, t) == PartCount(target, t) + PartCount(part, t)
  {
    merged := target;
    var todo := part.Keys;
    while todo != {}
      invariant todo <= part.Keys && ProperPart(merged)
      invariant forall t :: PartCount(merged, t) == PartCount(target, t) + if t in todo then 0 else PartCount(part, t)
      decreases |todo|
    {
      SomeMember(todo);
      var token :| token in todo;
      todo := todo - {token};
      merged := merged[token := (if token in merged then merged[token] else 0) + part[token]];
      assert token in merged;
    }
  }

  ghost predicate Adds(before: Counts, after: Counts, inp: seq<int>, min: nat, max: int, from: nat) {
    Proper(after) && forall g, t :: Lookup(after, g, t) == Lookup(before, g, t) + Total(inp, min, max, from, g, t)
  }

  /** The table holds the count over the whole history. */
  ghost predicate Represents(c: Counts, inp: seq<int>, min: nat, max: int) {
    Proper(c) && forall g, t :: Lookup(c, g, t) == Total(inp, min, max, 0, g, t)
  }

  lemma NoSizes(c: Counts, inp: seq<int>, min: nat, from: nat)
    requires Proper(c)
    ensures Adds(c, c, inp, min, min - 1, from)
  {
  }

  lemma NoSizesAtAll(c: Counts, inp: seq<int>, min: nat, max: nat, from: nat)
    requires Proper(c) && min > max
    ensures Adds(c, c, inp, min, max, from)
  {
  }

  /** Updating with the appended tokens keeps the table equal to the count over everything. */
  lemma AppendRepresents(before: Counts, after: Counts, inp: seq<int>, from: nat, min: nat, max: int)
    requires from <= |inp| && Represents(before, inp[..from], min, max) && Adds(before, after, inp, min, max, from)
    ensures Represents(after, inp, min, max)
  {
    forall g, t
      ensures Lookup(after, g, t) == Total(inp, min, max, 0, g, t)
    {
      TotalAppend(inp[..from], inp[from..], min, max, g, t);
      assert inp[..from] + inp[from..] == inp;
    }
  }

  /** Hence the table does not depend on how the history was split into updates. */
  lemma HistoryDetermines(c: Counts, d: Counts, inp: seq<int>, min: nat, max: int)
    requires Represents(c, inp, min, max) && Represents(d, inp, min, max)
    ensures c == d
  {
    CountsDetermine(c, d);
  }

  lemma NothingYet(min: nat, max: int)
    ensures Represents(map[], [], min, max)
  {
    forall g, t
      ensures Total([], min, max, 0, g, t) == 0
    {
      TotalOfNothing(min, max, g, t);
    }
  }

  lemma {:induction false} TotalOfNothing(min: nat, max: int, g: Ngram, t: int)
    ensures Total([], min, max, 0, g, t) == 0
    decreases max
  {
    if max >= min {
      TotalOfNothing(min, max - 1, g, t);
    }
  }

  // ----- for ordinary tokens: one n-gram, one size

  /** Token `i` is `t`, and the tokens just before it are `w`. */
  predicate Preceded(inp: seq<int>, w: seq<int>, i: nat, t: int) {
    |w| <= i < |inp| && inp[i] == t && inp[i - |w|..i] == w
  }

  /** The simple count: the positions before `end` at which `t` comes right after `w`. */
  function Positions(inp: seq<int>, w: seq<int>, t: int, end: nat): nat {
    if end == 0 then 0 else Positions(inp, w, t, end - 1) + if Preceded(inp, w, end - 1, t) then 1 else 0
  }

  ghost predicate Ordinary(tokens: seq<int>) {
    forall i :: 0 <= i < |tokens| ==> tokens[i] >= 0
  }

  /** The padding tells windows of different sizes apart. */
  lemma PaddingTells(v: seq<int>, w: seq<int>)
    requires Ordinary(v) && Ordinary(w) && |v| <= NGRAM_MAX && |w| <= NGRAM_MAX
    ensures NgramOf(v) == NgramOf(w) <==> v == w
  {
    if |v| < |w| {
      assert NgramOf(v)[|v|] == -1 && NgramOf(w)[|v|] == w[|v|];
    } else if |w| < |v| {
      assert NgramOf(w)[|w|] == -1 && NgramOf(v)[|w|] == v[|w|];
    } else if NgramOf(v) == NgramOf(w) {
      forall i | 0 <= i < |v|
        ensures v[i] == w[i]
      {
        assert NgramOf(v)[i] == NgramOf(w)[i];
      }
    }
  }

  lemma FollowsIsPreceded(inp: seq<int>, w: seq<int>, size: nat, i: nat, t: int)
    requires Ordinary(inp) && Ordinary(w) && size <= NGRAM_MAX && |w| <= NGRAM_MAX
    ensures Follows(inp, size, i, NgramOf(w), t) <==> size == |w| && Preceded(inp, w, i, t)
  {
    if size <= i < |inp| {
      PaddingTells(inp[i - size..i], w);
    }
  }

  lemma {:induction false} OccurrencesArePositions(inp: seq<int>, w: seq<int>, size: nat, end: nat, t: int)
    requires Ordinary(inp) && Ordinary(w) && size <= NGRAM_MAX && |w| <= NGRAM_MAX && end <= |inp|
    ensures Occurrences(inp, size, 0, end, NgramOf(w), t) == if size == |w| then Positions(inp, w, t, end) else 0
    decreases end
  {
    if end > 0 {
      OccurrencesArePositions(inp, w, size, end - 1, t);
      FollowsIsPreceded(inp, w, size, end - 1, t);
    }
  }

  /** A table that represents a history of ordinary tokens holds, for every window and token, the number of
      positions at which the token comes right after the window. */
  lemma {:induction false} TotalIsPositions(inp: seq<int>, w: seq<int>, min: nat, max: int, t: int)
    requires Ordinary(inp) && Ordinary(w) && |w| <= NGRAM_MAX && max <= NGRAM_MAX
    ensures Total(inp, min, max, 0, NgramOf(w), t) == if min <= |w| <= max then Positions(inp, w, t, |inp|) else 0
    decreases max
  {
    if max >= min {
      TotalIsPositions(inp, w, min, max - 1, t);
      OccurrencesArePositions(inp, w, max, |inp|, t);
    }
  }

  // ----- the file format, as a stream of 32-bit integers

  /** Entries read into `acc`, the first of a key staying. */
  function LoadPart(s: seq<int>, n: int, acc: Part): (r: Option<(Part, seq<int>)>)
    ensures r.Some? ==> |r.value.1| <= |s|
    decreases |s|
  {
    if n <= 0 then Some((acc, s))
    else if |s| < 2 || s[1] <= 0 then None
    else LoadPart(s[2..], n - 1, if s[0] in acc then acc else acc[s[0] := s[1]])
  }

  /** None stands for a failed assertion; an incomplete n-gram at the end of the file is ignored. */
  function LoadFrom(s: seq<int>, acc: Counts): Option<Counts>
    decreases |s|
  {
    if |s| < NGRAM_MAX then Some(acc)
    else if |s| == NGRAM_MAX || s[NGRAM_MAX] <= 0 then None
    else
      match LoadPart(s[NGRAM_MAX + 1..], s[NGRAM_MAX], map[])
      case None => None
      case Some((part, rest)) => LoadFrom(rest, if s[..NGRAM_MAX] in acc then acc else acc[s[..NGRAM_MAX] := part])
  }

  method ReadPart(s: seq<int>, ntokens: int) returns (r: Option<(Part, seq<int>)>)
    ensures r == LoadPart(s, ntokens, map[])
  {
    var counts: Part := map[];
    var rest := s;
    var i := 0;
    while i < ntokens
      invariant 0 <= i && (i <= ntokens || i == 0) && LoadPart(s, ntokens, map[]) == LoadPart(rest, ntokens - i, counts)
    {
      if |rest| < 2 || rest[1] <= 0 {
        return None;
      }
      if rest[0] !in counts {
        counts := counts[rest[0] := rest[1]];
      }
      rest := rest[2..];
      i := i + 1;
    }
    r := Some((counts, rest));
  }

  method Load(s: seq<int>) returns (r: Option<Counts>)
    ensures r == LoadFrom(s, map[])
  {
    var counts: Counts := map[];
    var rest := s;
    while |rest| >= NGRAM_MAX
      invariant LoadFrom(s, map[]) == LoadFrom(rest, counts)
      decreases |rest|
    {
      if |rest| == NGRAM_MAX || rest[NGRAM_MAX] <= 0 {
        return None;
      }
      var part := ReadPart(rest[NGRAM_MAX + 1..], rest[NGRAM_MAX]);
      if part.None? {
        return None;
      }
      var ngram := rest[..NGRAM_MAX];
      if ngram !in counts {
        counts := counts[ngram := part.value.0];
      }
      rest := part.value.1;
    }
    r := Some(counts);
  }

  function Pairs(items: seq<(int, int)>): seq<int> {
    if items == [] then [] else [items[0].0, items[0].1] + Pairs(items[1..])
  }

  function Into(acc: Part, items: seq<(int, int)>): Part
    decreases |items|
  {
    if items == [] then acc else Into(acc[items[0].0 := items[0].1], items[1..])
  }

  /** Distinct tokens, none of them in `acc` yet, with positive counts. */
  ghost predicate FreshItems(acc: Part, items: seq<(int, int)>) {
    && (forall i :: 0 <= i < |items| ==> items[i].1 > 0 && items[i].0 !in acc)
    && (forall i, j :: 0 <= i < j < |items| ==> items[i].0 != items[j].0)
  }

  lemma {:induction false} LoadPairs(items: seq<(int, int)>, acc: Part, rest: seq<int>)
    requires FreshItems(acc, items)
    ensures LoadPart(Pairs(items) + rest, |items|, acc) == Some((Into(acc, items), rest))
    decreases |items|
  {
    if items == [] {
      assert Pairs(items) + rest == rest;
    } else {
      var s := Pairs(items) + rest;
      assert s[2..] == Pairs(items[1..]) + rest && s[0] == items[0].0 && s[1] == items[0].1;
      LoadPairs(items[1..], acc[items[0].0 := items[0].1], rest);
    }
  }

  lemma {:induction false} PairsSnoc(items: seq<(int, int)>, x: (int, int))
    ensures Pairs(items + [x]) == Pairs(items) + [x.0, x.1]
    ensures forall acc :: Into(acc, items + [x]) == Into(acc, items)[x.0 := x.1]
    decreases |items|
  {
    if items == [] {
      assert items + [x] == [x] && [x][1..] == [];
    } else {
      PairsSnoc(items[1..], x);
      assert (items + [x])[1..] == items[1..] + [x];
    }
  }

  /** The entries of a part, in some order. */
  method SavePart(part: Part) returns (out: seq<int>, ghost items: seq<(int, int)>)
    requires ProperPart(part)
    ensures out == Pairs(items) && |items| == |part| && FreshItems(map[], items) && Into(map[], items) == part
  {
    out, items := [], [];
    var todo := part.Keys;
    while todo != {}
      invariant todo <= part.Keys && out == Pairs(items) && |items| + |todo| == |part|
      invariant FreshItems(map[], items) && forall i :: 0 <= i < |items| ==> items[i].0 in part && items[i].0 !in todo
      invariant forall t :: t in Into(map[], items) <==> t in part && t !in todo
      invariant forall t :: t in Into(map[], items) ==> Into(map[], items)[t] == part[t]
      decreases |todo|
    {
      SomeMember(todo);
      var token :| token in todo;
      todo := todo - {token};
      PairsSnoc(items, (token, part[token]));
      items := items + [(token, part[token])];
      out := out + [token, part[token]];
    }
    SameMap(Into(map[], items), part);
  }

  lemma SameMap(p: Part, q: Part)
    requires forall t :: (t in p <==> t in q) && (t in p ==> p[t] == q[t])
    ensures p == q
  {
    forall t | t in p
      ensures t in q && p[t] == q[t]
    {
    }
    forall t | t in q
      ensures t in p
    {
    }
    assert p.Keys <= q.Keys && q.Keys <= p.Keys;
  }

  /** One entry of the file. */
  lemma LoadEntry(g: Ngram, part: Part, items: seq<(int, int)>, rest: seq<int>, acc: Counts)
    requires |g| == NGRAM_MAX && items != [] && FreshItems(map[], items) && Into(map[], items) == part && g !in acc
    ensures LoadFrom(g + [|items|] + Pairs(items) + rest, acc) == LoadFrom(rest, acc[g := part])
  {
    var s := g + [|items|] + Pairs(items) + rest;
    assert s[..NGRAM_MAX] == g && s[NGRAM_MAX] == |items| && s[NGRAM_MAX + 1..] == Pairs(items) + rest;
    LoadPairs(items, map[], rest);
  }

  ghost predicate ContinuesAs(out: seq<int>, rest: seq<int>, done: Counts) {
    LoadFrom(out + rest, map[]) == LoadFrom(rest, done)
  }

  /** Reading `out` leaves `done` behind, whatever comes next. */
  ghost predicate Writes(out: seq<int>, done: Counts) {
    forall rest :: ContinuesAs(out, rest, done)
  }

  lemma NothingWritten()
    ensures Writes([], map[])
  {
    forall rest
      ensures ContinuesAs([], rest, map[])
    {
      assert [] + rest == rest;
    }
  }

  lemma WrittenLoads(out: seq<int>, c: Counts)
    requires Writes(out, c)
    ensures LoadFrom(out, map[]) == Some(c)
  {
    assert ContinuesAs(out, [], c);
    assert out + [] == out;
  }

  /** Saving writes a file that loads back to the same table. */
  method Save(c: Counts) returns (out: seq<int>)
    requires Proper(c)
    ensures LoadFrom(out, map[]) == Some(c)
  {
    out := [];
    var todo := c.Keys;
    ghost var done: Counts := map[];
    NothingWritten();
    while todo != {}
      invariant todo <= c.Keys && done.Keys == c.Keys - todo && forall g :: g in done ==> done[g] == c[g]
      invariant Writes(out, done)
      decreases |todo|
    {
      var g :| g in todo;
      todo := todo - {g};
      var pairs, items := SavePart(c[g]);
      WritesEntry(out, g, c[g], items, done);
      out := out + (g + [|c[g]|] + pairs);
      done := done[g := c[g]];
    }
    assert done == c;
    WrittenLoads(out, c);
  }

  lemma WritesEntry(out: seq<int>, g: Ngram, part: Part, items: seq<(int, int)>, done: Counts)
    requires |g| == NGRAM_MAX && FreshItems(map[], items) && Into(map[], items) == part && ProperPart(part) && |items| == |part| && g !in done
    requires Writes(out, done)
    ensures Writes(out + (g + [|part|] + Pairs(items)), done[g := part])
  {
    assert items != [];
    var entry := g + [|part|] + Pairs(items);
    var all, more := out + entry, done[g := part];
    forall rest: seq<int>
      ensures ContinuesAs(all, rest, more)
    {
      LoadEntry(g, part, items, rest, done);
      EntryContinues(out, entry, rest, done, more);
    }
  }

  lemma EntryContinues(out: seq<int>, entry: seq<int>, rest: seq<int>, done: Counts, more: Counts)
    requires Writes(out, done) && LoadFrom(entry + rest, done) == LoadFrom(rest, more)
    ensures ContinuesAs(out + entry, rest, more)
  {
    assert ContinuesAs(out, entry + rest, done);
    assert out + entry + rest == out + (entry + rest);
  }
}
