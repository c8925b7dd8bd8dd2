/** Products, slices and selections, element by element. */
module LoraElements {
  import opened Wrappers
  import opened Tensors
  import opened LoraTensors
  import opened LoraMeaning

  // ----- the product

  function Total(terms: seq<real>): real {
    if terms == [] then 0.0 else terms[0] + Total(terms[1..])
  }

  lemma {:induction false} TotalSnoc(terms: seq<real>, x: real)
    ensures Total(terms + [x]) == Total(terms) + x
    decreases |terms|
  {
    if terms == [] {
      assert [x][1..] == [] && [] + [x] == [x];
    } else {
      assert (terms + [x])[1..] == terms[1..] + [x];
      TotalSnoc(terms[1..], x);
    }
  }

  lemma {:induction false} DotIsTotal(v: Row, m: Matrix, j: nat, terms: seq<real>)
    requires |terms| <= |v| && |terms| <= |m| && forall k :: 0 <= k < |m| ==> j < |m[k]|
    requires forall k :: 0 <= k < |terms| ==> terms[k] == v[k] * m[k][j]
    ensures Dot(v, m, j, |terms|) == Total(terms)
    decreases |terms|
  {
    if terms != [] {
      var n := |terms| - 1;
      DotIsTotal(v, m, j, terms[..n]);
      TotalSnoc(terms[..n], terms[n]);
      assert terms == terms[..n] + [terms[n]];
    }
  }

  /** The matrix at `at` serves the row at `idx`: the same leading indices, or 0 where there is only one. */
  predicate Serves(q: Shape, idx: seq<nat>, at: seq<nat>) {
    |at| == |q| < |idx| && forall d :: 0 <= d < |q| ==> at[d] == if q[d] == 1 then 0 else idx[d]
  }

  lemma {:induction false} CoverServes(q: Shape, idx: seq<nat>)
    requires |q| < |idx|
    ensures Serves(q, idx, Cover(q, idx))
    decreases |q|
  {
    if q != [] {
      CoverServes(q[1..], idx[1..]);
    }
  }

  lemma SameServes(q: Shape, idx: seq<nat>, at: seq<nat>, other: seq<nat>)
    requires Serves(q, idx, at) && Serves(q, idx, other)
    ensures at == other
  {
  }

  /** An element of the product: the sum over the rank of row times column. */
  lemma ElementIsSum(l: Lora, idx: seq<nat>, at: seq<nat>, j: nat, terms: seq<real>)
    requires l.Valid() && InBounds(l.b.shape, idx) && j < l.width && |terms| == l.rank
    requires InBounds(l.a.shape, at) && Serves(l.a.shape, idx, at)
    requires forall k :: 0 <= k < l.rank ==> terms[k] == l.b.At(idx)[k] * l.a.At(at)[k][j]
    ensures l.Meaning().At(idx)[j] == Total(terms)
  {
    CoverServes(l.a.shape, idx);
    CoverFits(l.a.shape, l.b.shape, idx);
    SameServes(l.a.shape, idx, at, Cover(l.a.shape, idx));
    DotIsTotal(l.b.At(idx), l.a.At(at), j, terms);
  }

  // ----- Python's indices

  /** An index counts from the front or, when negative, from the end. */
  lemma IndexIs(i: int, n: nat, x: nat)
    ensures Normal(i, n) == Some(x) <==> x < n && (x == i || x == i + n)
  {
  }

  function FromEnd(i: int, n: nat): int {
    if i < 0 then i + n else i
  }

  /** A slice holds what lies from its start up to, but not including, its stop. */
  lemma SliceIs(s: Slice, n: nat, i: nat)
    ensures s.Bounds(n).0 <= i < s.Bounds(n).1 <==>
      i < n && (s.start.Some? ==> FromEnd(s.start.value, n) <= i) && (s.stop.Some? ==> i < FromEnd(s.stop.value, n))
  {
  }

  /** Each position of a tuple selects from its own axis. */
  lemma {:induction false} SelectorsAre(ps: seq<Position>, shape: Shape, d: nat)
    requires Selectors(ps, shape).Some? && d < |ps|
    ensures d < |shape|
    ensures Selectors(ps, shape).value[d] == match ps[d]
      case At(i) => if Normal(i, shape[d]).Some? then One(Normal(i, shape[d]).value) else Span(0, 0)
      case Of(s) => Span(s.Bounds(shape[d]).0, s.Bounds(shape[d]).1)
    ensures ps[d].At? ==> Normal(ps[d].i, shape[d]).Some?
    decreases |ps|
  {
    if d > 0 {
      SelectorsAre(ps[1..], shape[1..], d - 1);
    }
  }

  predicate InRange(p: Position, n: nat) {
    p.At? ==> 0 <= p.i + n < 2 * n
  }

  /** A tuple is refused exactly if it is too long or an integer in it is out of range. */
  lemma {:induction false} SelectorsExact(ps: seq<Position>, shape: Shape)
    ensures Selectors(ps, shape).Some? <==> |ps| <= |shape| && forall d :: 0 <= d < |ps| ==> InRange(ps[d], shape[d])
    decreases |ps|
  {
    if ps != [] && shape != [] {
      SelectorsExact(ps[1..], shape[1..]);
      assert |ps| <= |shape| ==> forall d :: 0 < d < |ps| ==> ps[d] == ps[1..][d - 1] && shape[d] == shape[1..][d - 1];
      assert |ps| <= |shape| ==> forall d :: 0 <= d < |ps| - 1 ==> ps[1..][d] == ps[d + 1] && shape[1..][d] == shape[d + 1];
    }
  }

  // ----- selections

  /** How many of the first `d` axes are gone. */
  function Gone(sel: seq<Selector>, d: nat): nat
    requires d <= |sel|
  {
    if d == 0 then 0 else Gone(sel, d - 1) + if sel[d - 1].One? then 1 else 0
  }

  lemma {:induction false} GoneCons(sel: seq<Selector>, d: nat)
    requires 0 < d <= |sel|
    ensures Gone(sel, d) == (if sel[0].One? then 1 else 0) + Gone(sel[1..], d - 1)
    decreases d
  {
    if d > 1 {
      GoneCons(sel, d - 1);
    }
  }

  function Least(m: nat, n: nat): nat {
    if m <= n then m else n
  }

  /** A selected axis has the length of its range, one that is not selected from keeps its length. */
  predicate KeepsLength(shape: Shape, sel: seq<Selector>, d: nat, r: Shape)
    requires d < |shape|
  {
    var e := d - Gone(sel, Least(d, |sel|));
    if d < |sel| then sel[d].Span? ==> 0 <= e < |r| && r[e] == sel[d].hi - sel[d].lo else 0 <= e < |r| && r[e] == shape[d]
  }

  lemma KeepsLengthCons(shape: Shape, sel: seq<Selector>, d: nat, r: Shape)
    requires sel != [] && d + 1 < |shape| && KeepsLength(shape[1..], sel[1..], d, r)
    ensures sel[0].One? ==> KeepsLength(shape, sel, d + 1, r)
    ensures forall n: nat :: sel[0].Span? ==> KeepsLength(shape, sel, d + 1, [n] + r)
  {
    GoneCons(sel, Least(d + 1, |sel|));
  }

  lemma {:induction false} SelectedShapeIs(shape: Shape, sel: seq<Selector>, d: nat)
    requires Selects(shape, sel) && d < |shape|
    ensures KeepsLength(shape, sel, d, SelectedShape(shape, sel))
    decreases |sel|
  {
    if sel != [] && d > 0 {
      SelectedShapeIs(shape[1..], sel[1..], d - 1);
      KeepsLengthCons(shape, sel, d - 1, SelectedShape(shape[1..], sel[1..]));
    }
  }

  lemma {:induction false} SelectedAxes(shape: Shape, sel: seq<Selector>)
    requires Selects(shape, sel)
    ensures |sel| <= |shape| && |SelectedShape(shape, sel)| == |shape| - Gone(sel, |sel|)
    decreases |sel|
  {
    if sel != [] {
      SelectedAxes(shape[1..], sel[1..]);
      GoneCons(sel, |sel|);
    }
  }

  /** An integer is itself in the source, a range adds its start, an axis not selected from keeps its index. */
  predicate ComesFrom(sel: seq<Selector>, d: nat, idx: seq<nat>, src: seq<nat>)
    requires d < |src|
  {
    var e := d - Gone(sel, Least(d, |sel|));
    if d < |sel| && sel[d].One? then src[d] == sel[d].i
    else 0 <= e < |idx| && src[d] == idx[e] + if d < |sel| then sel[d].lo else 0
  }

  lemma ComesFromOne(sel: seq<Selector>, d: nat, idx: seq<nat>, src: seq<nat>)
    requires sel != [] && sel[0].One? && d < |src| && ComesFrom(sel[1..], d, idx, src)
    ensures ComesFrom(sel, d + 1, idx, [sel[0].i] + src)
  {
    GoneCons(sel, Least(d + 1, |sel|));
  }

  lemma ComesFromSpan(sel: seq<Selector>, d: nat, idx: seq<nat>, i: nat, src: seq<nat>)
    requires sel != [] && sel[0].Span? && idx != [] && d < |src| && ComesFrom(sel[1..], d, idx[1..], src)
    ensures ComesFrom(sel, d + 1, idx, [i] + src)
  {
    GoneCons(sel, Least(d + 1, |sel|));
  }

  lemma AfterOne(sel: seq<Selector>, d: nat, idx: seq<nat>, rest: seq<nat>, src: seq<nat>)
    requires sel != [] && sel[0].One? && d < |src| && src == [sel[0].i] + rest
    requires d > 0 ==> ComesFrom(sel[1..], d - 1, idx, rest)
    ensures ComesFrom(sel, d, idx, src)
  {
    if d > 0 {
      ComesFromOne(sel, d - 1, idx, rest);
    }
  }

  lemma AfterSpan(sel: seq<Selector>, d: nat, idx: seq<nat>, rest: seq<nat>, src: seq<nat>)
    requires sel != [] && sel[0].Span? && idx != [] && d < |src| && src == [sel[0].lo + idx[0]] + rest
    requires d > 0 ==> ComesFrom(sel[1..], d - 1, idx[1..], rest)
    ensures ComesFrom(sel, d, idx, src)
  {
    if d > 0 {
      ComesFromSpan(sel, d - 1, idx, sel[0].lo + idx[0], rest);
    }
  }

  lemma {:induction false} SourceIs(shape: Shape, sel: seq<Selector>, idx: seq<nat>, d: nat)
    requires Selects(shape, sel) && InBounds(SelectedShape(shape, sel), idx) && d < |shape|
    ensures ComesFrom(sel, d, idx, Source(shape, sel, idx))
    decreases |sel|
  {
    if sel == [] {
      assert Source(shape, sel, idx) == idx;
    } else if sel[0].One? {
      SourceOfOne(shape, sel, idx);
      if d > 0 {
        SourceIs(shape[1..], sel[1..], idx, d - 1);
      }
      AfterOne(sel, d, idx, Source(shape[1..], sel[1..], idx), Source(shape, sel, idx));
    } else {
      SourceOfSpan(shape, sel, idx);
      if d > 0 {
        SourceIs(shape[1..], sel[1..], idx[1..], d - 1);
      }
      AfterSpan(sel, d, idx, Source(shape[1..], sel[1..], idx[1..]), Source(shape, sel, idx));
    }
  }

  /** A permuted tensor holds each element at the permuted index. */
  lemma PermutedAt<T>(t: Tensor<T>, perm: seq<nat>, src: seq<nat>, idx: seq<nat>)
    requires t.Whole() && |perm| == |t.shape| && IsPermutation(perm) && InBounds(t.shape, src)
    requires |idx| == |perm| && forall d :: 0 <= d < |perm| ==> idx[d] == src[perm[d]]
    ensures InBounds(Permuted(t, perm).shape, idx) && Permuted(t, perm).At(idx) == t.At(src)
  {
    forall a | 0 <= a < |perm|
      ensures Unpermuted(t.shape, perm, idx)[a] == src[a]
    {
      assert perm[PlaceOf(perm, a)] == a;
    }
    assert Unpermuted(t.shape, perm, idx) == src;
  }

  // ----- concatenation

  lemma ConsOffset(shape: Shape, k: nat, rest: seq<nat>)
    requires InBounds(shape, [k] + rest)
    ensures shape != [] && k < shape[0] && InBounds(shape[1..], rest)
    ensures Offset(shape, [k] + rest) == k * Size(shape[1..]) + Offset(shape[1..], rest)
  {
    assert ([k] + rest)[1..] == rest;
    assert forall d :: 0 <= d < |rest| ==> ([k] + rest)[d + 1] == rest[d] && shape[d + 1] == shape[1..][d];
    OffsetCons(shape, [k] + rest);
  }

  lemma Sums(a: nat, b: nat, n: nat)
    ensures (a + b) * n == a * n + b * n
  {
  }

  lemma FirstPart<T>(t: Tensor<T>, u: Tensor<T>, idx: seq<nat>)
    requires Joinable(t, u) && InBounds(Joined(t, u).shape, idx) && idx != [] && idx[0] < t.shape[0]
    ensures Joined(t, u).At(idx) == (t.data + u.data)[Offset(Joined(t, u).shape, idx)]
  {
    var v := Joined(t, u);
    JoinedAt(t, u, idx);
    assert idx == [idx[0]] + idx[1..];
    ConsOffset(v.shape, idx[0], idx[1..]);
    ConsOffset(t.shape, idx[0], idx[1..]);
    assert v.shape[1..] == t.shape[1..];
  }

  lemma SecondPart<T>(t: Tensor<T>, u: Tensor<T>, idx: seq<nat>, m: nat)
    requires Joinable(t, u) && InBounds(Joined(t, u).shape, idx) && idx != [] && idx[0] == t.shape[0] + m
    ensures InBounds(u.shape, [m] + idx[1..])
    ensures Offset(Joined(t, u).shape, idx) == |t.data| + Offset(u.shape, [m] + idx[1..])
    ensures Joined(t, u).At(idx) == u.At([m] + idx[1..])
  {
    var v := Joined(t, u);
    JoinedAt(t, u, idx);
    assert idx == [idx[0]] + idx[1..];
    ConsOffset(v.shape, idx[0], idx[1..]);
    ConsOffset(u.shape, m, idx[1..]);
    assert v.shape[1..] == t.shape[1..] == u.shape[1..];
    Sums(t.shape[0], m, Size(t.shape[1..]));
  }

  lemma JoinedSize<T>(t: Tensor<T>, u: Tensor<T>)
    requires Joinable(t, u)
    ensures |t.data + u.data| == Size(Joined(t, u).shape)
  {
    var v := Joined(t, u);
    assert v.shape[1..] == t.shape[1..] && v.shape[0] == t.shape[0] + u.shape[0];
    Sums(t.shape[0], u.shape[0], Size(t.shape[1..]));
  }

  /** In row-major order, joining along the first axis is joining the elements. */
  lemma JoinedData<T>(t: Tensor<T>, u: Tensor<T>)
    requires Joinable(t, u)
    ensures Joined(t, u).data == t.data + u.data
  {
    var v := Joined(t, u);
    var w := Tensor(v.shape, t.data + u.data);
    JoinedSize(t, u);
    forall idx | InBounds(v.shape, idx)
      ensures v.At(idx) == w.At(idx)
    {
      JoinedAt(t, u, idx);
      if idx[0] < t.shape[0] {
        FirstPart(t, u, idx);
      } else {
        SecondPart(t, u, idx, idx[0] - t.shape[0]);
      }
    }
    SameTensor(v, w);
  }

  function Elements<T>(ts: seq<Tensor<T>>): seq<T> {
    if ts == [] then [] else Elements(ts[..|ts| - 1]) + ts[|ts| - 1].data
  }

  lemma ElementsSnoc<T>(ts: seq<Tensor<T>>, t: Tensor<T>)
    ensures Elements(ts + [t]) == Elements(ts) + t.data
  {
    assert (ts + [t])[..|ts|] == ts;
  }

  lemma {:induction false} ElementsCons<T>(t: Tensor<T>, ts: seq<Tensor<T>>)
    ensures Elements([t] + ts) == t.data + Elements(ts)
    decreases |ts|
  {
    if ts == [] {
      ElementsSnoc([], t);
      assert [t] + ts == [] + [t];
    } else {
      var n := |ts| - 1;
      ElementsCons(t, ts[..n]);
      ElementsSnoc([t] + ts[..n], ts[n]);
      assert [t] + ts == [t] + ts[..n] + [ts[n]];
    }
  }

  /** A concatenation is the elements of the tensors, in order. */
  lemma {:induction false} ConcatenatedData<T>(ts: seq<Tensor<T>>)
    requires AllJoinable(ts)
    ensures Concatenated(ts).data == Elements(ts)
    decreases |ts|
  {
    if |ts| == 1 {
      assert ts[..0] == [];
    } else {
      TailJoinable(ts);
      ConcatenatedData(ts[1..]);
      JoinedData(ts[0], Concatenated(ts[1..]));
      ElementsCons(ts[0], ts[1..]);
      assert ts == [ts[0]] + ts[1..];
    }
  }
}
