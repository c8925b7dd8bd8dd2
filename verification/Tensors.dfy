/** Tensors in row-major order, and the operations on axes that move elements without changing them. */
module Tensors {
  import opened Wrappers

  type Shape = seq<nat>

  function Size(shape: Shape): nat {
    if shape == [] then 1 else shape[0] * Size(shape[1..])
  }

  predicate InBounds(shape: Shape, idx: seq<nat>) {
    |idx| == |shape| && forall d :: 0 <= d < |shape| ==> idx[d] < shape[d]
  }

  // ----- arithmetic of one axis

  lemma Later(i: nat, j: nat, k: nat)
    requires i < j
    ensures i * k + k <= j * k
  {
    assert j * k == (i + 1) * k + (j - i - 1) * k;
  }

  lemma Inside(i: nat, n: nat, o: nat, k: nat)
    requires i < n && o < k
    ensures i * k + o < n * k
  {
    Later(i, n, k);
  }

  lemma OneSplit(i: nat, o: nat, j: nat, p: nat, k: nat)
    requires o < k && p < k && i * k + o == j * k + p
    ensures i == j && o == p
  {
    if i < j {
      Later(i, j, k);
    } else if j < i {
      Later(j, i, k);
    }
  }

  /** A position as a block of `k` and a position in it. */
  function Split(m: nat, n: nat, k: nat): (r: (nat, nat))
    requires m < n * k
    ensures r.0 < n && r.1 < k && r.0 * k + r.1 == m
  {
    SplitFits(m, n, k);
    (m / k, m % k)
  }

  lemma SplitFits(m: nat, n: nat, k: nat)
    requires m < n * k
    ensures k > 0 && m / k < n
  {
    if k == 0 {
      assert false;
    }
    if n <= m / k {
      Below(n, m / k, k);
    }
  }

  lemma Below(i: nat, j: nat, k: nat)
    requires i <= j
    ensures i * k <= j * k
  {
  }

  // ----- positions

  /** The position of an element in row-major order. */
  function Offset(shape: Shape, idx: seq<nat>): (n: nat)
    requires InBounds(shape, idx)
    ensures n < Size(shape)
    decreases |shape|
  {
    if shape == [] then 0
    else
      var rest := Offset(shape[1..], idx[1..]);
      Inside(idx[0], shape[0], rest, Size(shape[1..]));
      idx[0] * Size(shape[1..]) + rest
  }

  function Index(shape: Shape, n: nat): (idx: seq<nat>)
    requires n < Size(shape)
    ensures InBounds(shape, idx)
    decreases |shape|
  {
    if shape == [] then []
    else
      var (i, rest) := Split(n, shape[0], Size(shape[1..]));
      ConsInBounds(shape, i, Index(shape[1..], rest));
      [i] + Index(shape[1..], rest)
  }

  lemma ConsInBounds(shape: Shape, i: nat, rest: seq<nat>)
    requires shape != [] && i < shape[0] && InBounds(shape[1..], rest)
    ensures InBounds(shape, [i] + rest)
  {
  }

  lemma {:induction false} OffsetOfIndex(shape: Shape, n: nat)
    requires n < Size(shape)
    ensures Offset(shape, Index(shape, n)) == n
    decreases |shape|
  {
    if shape == [] {
      assert n == 0;
    } else {
      var (i, rest) := Split(n, shape[0], Size(shape[1..]));
      OffsetOfIndex(shape[1..], rest);
      assert Index(shape, n)[1..] == Index(shape[1..], rest);
    }
  }

  lemma {:induction false} IndexOfOffset(shape: Shape, idx: seq<nat>)
    requires InBounds(shape, idx)
    ensures Index(shape, Offset(shape, idx)) == idx
    decreases |shape|
  {
    if shape == [] {
      assert idx == [];
    } else {
      var k, n, rest := Size(shape[1..]), Offset(shape, idx), Offset(shape[1..], idx[1..]);
      IndexOfOffset(shape[1..], idx[1..]);
      var (i, o) := Split(n, shape[0], k);
      OneSplit(i, o, idx[0], rest, k);
      assert [idx[0]] + idx[1..] == idx;
    }
  }

  lemma {:induction false} SizeConcat(s: Shape, t: Shape)
    ensures Size(s + t) == Size(s) * Size(t)
    decreases |s|
  {
    if s == [] {
      assert s + t == t;
    } else {
      SizeConcat(s[1..], t);
      assert (s + t)[1..] == s[1..] + t;
      assert s[0] * (Size(s[1..]) * Size(t)) == s[0] * Size(s[1..]) * Size(t);
    }
  }

  lemma {:induction false} OffsetConcat(s: Shape, t: Shape, i: seq<nat>, j: seq<nat>)
    requires InBounds(s, i) && InBounds(t, j)
    ensures InBounds(s + t, i + j) && Offset(s + t, i + j) == Offset(s, i) * Size(t) + Offset(t, j)
    decreases |s|
  {
    BoundsConcat(s, t, i, j);
    if s == [] {
      assert s + t == t && i + j == j;
    } else {
      OffsetConcat(s[1..], t, i[1..], j);
      OffsetConcatStep(s, t, i, j, Offset(s[1..], i[1..]), Offset(t, j));
    }
  }

  lemma OffsetConcatStep(s: Shape, t: Shape, i: seq<nat>, j: seq<nat>, r: nat, o: nat)
    requires s != [] && InBounds(s, i) && InBounds(s + t, i + j) && InBounds(s[1..] + t, i[1..] + j)
    requires r == Offset(s[1..], i[1..]) && Offset(s[1..] + t, i[1..] + j) == r * Size(t) + o
    ensures Offset(s + t, i + j) == Offset(s, i) * Size(t) + o
  {
    SizeConcat(s[1..], t);
    OffsetCons(s, i);
    OffsetCons(s + t, i + j);
    ConsConcat(s, t);
    ConsConcat(i, j);
    Distributes(i[0], Size(s[1..]), r, Size(t), Size(s[1..] + t), Offset(s, i), Offset(s + t, i + j), o);
  }

  lemma OffsetCons(s: Shape, i: seq<nat>)
    requires s != [] && InBounds(s, i)
    ensures Offset(s, i) == i[0] * Size(s[1..]) + Offset(s[1..], i[1..])
  {
  }

  lemma BoundsConcat(s: Shape, t: Shape, i: seq<nat>, j: seq<nat>)
    requires InBounds(s, i) && InBounds(t, j)
    ensures InBounds(s + t, i + j)
  {
  }

  lemma ConsConcat(s: seq<nat>, t: seq<nat>)
    requires s != []
    ensures s + t != [] && (s + t)[0] == s[0] && (s + t)[1..] == s[1..] + t
  {
  }

  lemma Distributes(i: nat, k: nat, r: nat, n: nat, kn: nat, lead: nat, total: nat, o: nat)
    requires kn == k * n && lead == i * k + r && total == i * kn + (r * n + o)
    ensures total == lead * n + o
  {
    assert i * kn == i * k * n;
    assert lead * n == i * k * n + r * n;
  }

  // ----- tensors

  datatype Tensor<T> = Tensor(shape: Shape, data: seq<T>) {
    predicate Whole() {
      |data| == Size(shape)
    }

    function At(idx: seq<nat>): T
      requires Whole() && InBounds(shape, idx)
    {
      data[Offset(shape, idx)]
    }
  }

  /** The tensor with a given element at each index. */
  function Build<T>(shape: Shape, f: seq<nat> --> T): (t: Tensor<T>)
    requires forall idx :: InBounds(shape, idx) ==> f.requires(idx)
    ensures t.shape == shape && t.Whole()
    ensures forall idx :: InBounds(shape, idx) ==> t.At(idx) == f(idx)
  {
    var t := Tensor(shape, seq(Size(shape), n requires 0 <= n < Size(shape) => f(Index(shape, n))));
    assert forall idx :: InBounds(shape, idx) ==> t.At(idx) == f(idx) by {
      forall idx | InBounds(shape, idx)
        ensures t.At(idx) == f(idx)
      {
        IndexOfOffset(shape, idx);
      }
    }
    t
  }

  lemma SameTensor<T>(t: Tensor<T>, u: Tensor<T>)
    requires t.Whole() && u.Whole() && t.shape == u.shape
    requires forall idx :: InBounds(t.shape, idx) ==> t.At(idx) == u.At(idx)
    ensures t == u
  {
    forall n | 0 <= n < |t.data|
      ensures t.data[n] == u.data[n]
    {
      OffsetOfIndex(t.shape, n);
      assert t.At(Index(t.shape, n)) == u.At(Index(t.shape, n));
    }
  }

  // ----- operations on axes

  /** The same elements in the same order, under another shape. */
  function Reshaped<T>(t: Tensor<T>, shape: Shape): Option<Tensor<T>> {
    if Size(shape) == Size(t.shape) then Some(Tensor(shape, t.data)) else None
  }

  predicate IsPermutation(perm: seq<nat>) {
    && (forall d :: 0 <= d < |perm| ==> perm[d] < |perm|)
    && (forall d, e :: 0 <= d < e < |perm| ==> perm[d] != perm[e])
  }

  /** Where axis `a` of the input went. */
  function PlaceOf(perm: seq<nat>, a: nat): (d: nat)
    requires IsPermutation(perm) && a < |perm|
    ensures d < |perm| && perm[d] == a
  {
    AllPlaces(perm, a);
    var d: nat :| d < |perm| && perm[d] == a;
    d
  }

  function UpTo(n: nat): (r: set<nat>)
    ensures |r| == n && forall d: nat :: d in r <==> d < n
  {
    if n == 0 then {} else UpTo(n - 1) + {n - 1}
  }

  function Taken(perm: seq<nat>, n: nat): (r: set<nat>)
    requires IsPermutation(perm) && n <= |perm|
    ensures |r| == n && forall a :: a in r ==> exists d: nat :: d < n && perm[d] == a
  {
    if n == 0 then {}
    else
      assert perm[n - 1] !in Taken(perm, n - 1);
      Taken(perm, n - 1) + {perm[n - 1]}
  }

  /** As many different places as there are: each is taken. */
  lemma AllPlaces(perm: seq<nat>, a: nat)
    requires IsPermutation(perm) && a < |perm|
    ensures exists d: nat :: d < |perm| && perm[d] == a
  {
    var taken := Taken(perm, |perm|);
    if a !in taken {
      assert taken <= UpTo(|perm|) - {a};
      SubsetSize(taken, UpTo(|perm|) - {a});
    }
  }

  /** Output axis `d` is input axis `perm[d]`. */
  function Permuted<T>(t: Tensor<T>, perm: seq<nat>): (u: Tensor<T>)
    requires t.Whole() && |perm| == |t.shape| && IsPermutation(perm)
    ensures u.Whole() && u.shape == PermutedShape(t.shape, perm)
    ensures forall idx :: InBounds(u.shape, idx) ==> u.At(idx) == t.At(Unpermuted(t.shape, perm, idx))
  {
    Build(PermutedShape(t.shape, perm),
          idx requires InBounds(PermutedShape(t.shape, perm), idx) => t.At(Unpermuted(t.shape, perm, idx)))
  }

  function PermutedShape(shape: Shape, perm: seq<nat>): (r: Shape)
    requires |perm| == |shape| && IsPermutation(perm)
    ensures |r| == |perm| && forall d :: 0 <= d < |perm| ==> r[d] == shape[perm[d]]
  {
    seq(|perm|, d requires 0 <= d < |perm| => shape[perm[d]])
  }

  function Unpermuted(shape: Shape, perm: seq<nat>, idx: seq<nat>): (src: seq<nat>)
    requires |perm| == |shape| && IsPermutation(perm) && InBounds(PermutedShape(shape, perm), idx)
    ensures InBounds(shape, src)
    ensures forall a :: 0 <= a < |perm| ==> src[a] == idx[PlaceOf(perm, a)]
  {
    var src := seq(|perm|, a requires 0 <= a < |perm| => idx[PlaceOf(perm, a)]);
    assert forall a :: 0 <= a < |perm| ==> perm[PlaceOf(perm, a)] == a;
    src
  }

  // ----- indexing

  /** One index of an axis, or a range of them. */
  datatype Selector = One(i: nat) | Span(lo: nat, hi: nat)

  predicate Selects(shape: Shape, sel: seq<Selector>)
    decreases |sel|
  {
    sel == [] || (
      && shape != []
      && (match sel[0]
          case One(i) => i < shape[0]
          case Span(lo, hi) => lo <= hi <= shape[0])
      && Selects(shape[1..], sel[1..]))
  }

  function SelectedShape(shape: Shape, sel: seq<Selector>): Shape
    requires Selects(shape, sel)
    decreases |sel|
  {
    if sel == [] then shape
    else
      var rest := SelectedShape(shape[1..], sel[1..]);
      match sel[0]
      case One(_) => rest
      case Span(lo, hi) => [hi - lo] + rest
  }

  lemma FirstSelected(shape: Shape, s: Selector)
    requires Selects(shape, [s])
    ensures SelectedShape(shape, [s]) == match s case One(_) => shape[1..] case Span(lo, hi) => [hi - lo] + shape[1..]
  {
    assert [s][1..] == [];
  }

  /** The index an element was selected from. */
  function Source(shape: Shape, sel: seq<Selector>, idx: seq<nat>): (src: seq<nat>)
    requires Selects(shape, sel) && InBounds(SelectedShape(shape, sel), idx)
    ensures InBounds(shape, src)
    decreases |sel|
  {
    if sel == [] then idx
    else
      match sel[0]
      case One(i) => [i] + Source(shape[1..], sel[1..], idx)
      case Span(lo, hi) => [lo + idx[0]] + Source(shape[1..], sel[1..], idx[1..])
  }

  function Selected<T>(t: Tensor<T>, sel: seq<Selector>): (u: Tensor<T>)
    requires t.Whole() && Selects(t.shape, sel)
    ensures u.Whole() && u.shape == SelectedShape(t.shape, sel)
    ensures forall idx :: InBounds(u.shape, idx) ==> u.At(idx) == t.At(Source(t.shape, sel, idx))
  {
    Build(SelectedShape(t.shape, sel),
          idx requires InBounds(SelectedShape(t.shape, sel), idx) => t.At(Source(t.shape, sel, idx)))
  }

  // ----- joining

  predicate Alike<T>(ts: seq<Tensor<T>>) {
    && ts != []
    && (forall i :: 0 <= i < |ts| ==> ts[i].Whole() && ts[i].shape == ts[0].shape)
  }

  /** Tensors of one shape along a new first axis. */
  function Stacked<T>(ts: seq<Tensor<T>>): (u: Tensor<T>)
    requires Alike(ts)
    ensures u.Whole() && u.shape == [|ts|] + ts[0].shape
    ensures forall idx :: InBounds(u.shape, idx) ==> u.At(idx) == ts[idx[0]].At(idx[1..])
  {
    Build([|ts|] + ts[0].shape,
          idx requires InBounds([|ts|] + ts[0].shape, idx) => ts[idx[0]].At(idx[1..]))
  }

  /** Tensors that differ at most in the length of the first axis. */
  predicate Joinable<T>(t: Tensor<T>, u: Tensor<T>) {
    t.Whole() && u.Whole() && t.shape != [] && u.shape != [] && t.shape[1..] == u.shape[1..]
  }

  function Joined<T>(t: Tensor<T>, u: Tensor<T>): (v: Tensor<T>)
    requires Joinable(t, u)
    ensures v.Whole() && v.shape == [t.shape[0] + u.shape[0]] + t.shape[1..]
  {
    Build([t.shape[0] + u.shape[0]] + t.shape[1..], idx requires InBounds([t.shape[0] + u.shape[0]] + t.shape[1..], idx) => FromEither(t, u, idx))
  }

  function FromEither<T>(t: Tensor<T>, u: Tensor<T>, idx: seq<nat>): T
    requires Joinable(t, u) && InBounds([t.shape[0] + u.shape[0]] + t.shape[1..], idx)
  {
    if idx[0] < t.shape[0] then t.At(idx) else u.At([idx[0] - t.shape[0]] + idx[1..])
  }

  lemma JoinedAt<T>(t: Tensor<T>, u: Tensor<T>, idx: seq<nat>)
    requires Joinable(t, u) && InBounds(Joined(t, u).shape, idx)
    ensures idx != []
    ensures if idx[0] < t.shape[0] then InBounds(t.shape, idx) && Joined(t, u).At(idx) == t.At(idx)
            else
              var src := [idx[0] - t.shape[0]] + idx[1..];
              InBounds(u.shape, src) && Joined(t, u).At(idx) == u.At(src)
  {
  }

  predicate AllJoinable<T>(ts: seq<Tensor<T>>) {
    && ts != [] && ts[0].shape != []
    && (forall i :: 0 <= i < |ts| ==> ts[i].Whole() && ts[i].shape != [] && ts[i].shape[1..] == ts[0].shape[1..])
  }

  function FirstAxes<T>(ts: seq<Tensor<T>>): nat
    requires forall i :: 0 <= i < |ts| ==> ts[i].shape != []
  {
    if ts == [] then 0 else ts[0].shape[0] + FirstAxes(ts[1..])
  }

  /** Concatenation along the first axis. */
  function Concatenated<T>(ts: seq<Tensor<T>>): (u: Tensor<T>)
    requires AllJoinable(ts)
    ensures u.Whole() && u.shape == [FirstAxes(ts)] + ts[0].shape[1..]
    decreases |ts|
  {
    if |ts| == 1 then
      OneAxis(ts[0]);
      ts[0]
    else
      TailJoinable(ts);
      Joined(ts[0], Concatenated(ts[1..]))
  }

  lemma OneAxis<T>(t: Tensor<T>)
    requires t.shape != []
    ensures t.shape == [t.shape[0]] + t.shape[1..] && FirstAxes([t]) == t.shape[0]
  {
    assert FirstAxes([t]) == t.shape[0] + FirstAxes([t][1..]);
  }

  lemma TailJoinable<T>(ts: seq<Tensor<T>>)
    requires AllJoinable(ts) && |ts| > 1
    ensures AllJoinable(ts[1..]) && ts[1..][0] == ts[1]
    ensures FirstAxes(ts) == ts[0].shape[0] + FirstAxes(ts[1..])
  {
  }
}
