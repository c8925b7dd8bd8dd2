/** Reshaping, permuting and joining pairs, and the head permutation built from them. */
module LoraShapes {
  import opened Wrappers
  import opened Tensors
  import opened LoraTensors

  // ----- one matrix for all rows

  lemma OneMatrixRow(l: Lora, idx: seq<nat>)
    requires l.Valid() && InBounds(l.b.shape, idx) && (Size(l.a.shape) == 1 || l.width == 0)
    ensures l.RowAt(idx) == Combine(l.b.At(idx), l.OneMatrix(), l.rank, l.width)
  {
    CoverFits(l.a.shape, l.b.shape, idx);
  }

  lemma {:induction false} OnesStretch(q: Shape, p: Shape)
    requires AllOnes(q) && |p| == |q| + 1
    ensures Stretches(q, p)
    decreases |q|
  {
    if q != [] {
      OnesStretch(q[1..], p[1..]);
    }
  }

  // ----- reshape

  /** A reshape that is not refused reshapes the product. */
  lemma ReshapeMeans(l: Lora, dims: seq<int>)
    requires l.Valid() && l.Reshape(dims).Some?
    ensures var r := l.Reshape(dims).value;
      r.Valid() && Reshaped(l.Meaning(), r.b.shape) == Some(r.Meaning())
  {
    var r := l.Reshape(dims).value;
    OnesStretch(r.a.shape, r.b.shape);
    var t := Tensor(r.b.shape, l.Meaning().data);
    forall idx | InBounds(r.b.shape, idx)
      ensures r.Meaning().At(idx) == t.At(idx)
    {
      var n := Offset(r.b.shape, idx);
      var src := Index(l.b.shape, n);
      OffsetOfIndex(l.b.shape, n);
      SizeOfOnes(r.a.shape);
      OneMatrixRow(r, idx);
      OneMatrixRow(l, src);
      assert l.Meaning().At(src) == l.RowAt(src);
    }
    SameTensor(r.Meaning(), t);
  }

  /** Without an open axis, only a change of the last axis, of the size, or of more than one matrix is refused. */
  lemma ReshapeExact(l: Lora, dims: seq<int>)
    requires l.Made() && forall d :: 0 <= d < |dims| ==> dims[d] >= 0
    ensures l.Reshape(dims).Some? <==>
      && |dims| >= 2 && dims[|dims| - 1] == l.width && (Size(l.a.shape) == 1 || l.width == 0)
      && Size(Lengths(dims[..|dims| - 1])) == Size(l.b.shape)
    ensures l.Reshape(dims).Some? ==> l.Reshape(dims).value.b.shape == Lengths(dims[..|dims| - 1])
  {
    if |dims| >= 2 {
      var shape := Expanded(dims, Size(l.b.shape) * l.width).value;
      assert shape[..|dims| - 1] == Lengths(dims[..|dims| - 1]);
    }
  }

  function Lengths(dims: seq<int>): (s: Shape)
    requires forall d :: 0 <= d < |dims| ==> dims[d] >= 0
    ensures |s| == |dims| && forall d :: 0 <= d < |s| ==> s[d] == dims[d]
  {
    seq(|dims|, d requires 0 <= d < |dims| => dims[d])
  }

  /** One open axis takes exactly what is left. */
  lemma OpenAxisFills(dims: seq<int>, elements: nat, at: nat)
    requires at < |dims| && dims[at] == -1 && Expanded(dims, elements).Some?
    requires forall d :: 0 <= d < |dims| && d != at ==> dims[d] != -1
    ensures Size(Expanded(dims, elements).value) == elements
  {
    var known := Product(dims);
    OpenProduct(dims, at, elements / known, Expanded(dims, elements).value);
    assert elements == (elements / known) * known;
  }

  lemma {:induction false} OpenProduct(dims: seq<int>, at: nat, fill: nat, shape: Shape)
    requires at < |dims| == |shape| && dims[at] == -1 && shape[at] == fill
    requires forall d :: 0 <= d < |dims| && d != at ==> dims[d] != -1 && shape[d] == dims[d]
    ensures Size(shape) == fill * Product(dims)
    decreases |dims|
  {
    if at == 0 {
      ClosedProduct(dims[1..], shape[1..]);
    } else {
      OpenProduct(dims[1..], at - 1, fill, shape[1..]);
      assert dims[0] * (fill * Product(dims[1..])) == fill * (dims[0] * Product(dims[1..]));
    }
  }

  lemma {:induction false} ClosedProduct(dims: seq<int>, shape: Shape)
    requires |dims| == |shape| && forall d :: 0 <= d < |dims| ==> dims[d] != -1 && shape[d] == dims[d]
    ensures Size(shape) == Product(dims)
    decreases |dims|
  {
    if dims != [] {
      ClosedProduct(dims[1..], shape[1..]);
    }
  }

  // ----- permute and transpose

  function Axes(dims: seq<int>, n: nat): (axes: seq<int>)
    ensures |axes| == |dims|
  {
    seq(|dims|, d requires 0 <= d < |dims| => if dims[d] >= 0 then dims[d] else dims[d] + n)
  }

  /** The axes of the rows, where the axes of `a` and `b` inside a matrix stay. */
  function RowAxes(axes: seq<int>, n: nat): (perm: seq<nat>)
    requires n > 0 && AreAxes(axes, n) && axes[n - 1] == n - 1
    ensures IsPermutation(perm) && |perm| == n - 1
  {
    LastAxisStays(axes, n);
    axes[..n - 1]
  }

  /** Exactly two kinds of permutation are allowed, and each permutes the product. */
  lemma PermuteMeans(l: Lora, dims: seq<int>)
    requires l.Valid()
    ensures var n, axes := |l.Shape()|, Axes(dims, |l.Shape()|);
      && (l.Permute(dims).Some? <==>
            AreAxes(axes, n) && ((axes[n - 1] == n - 1 && AllOnes(l.a.shape)) || |l.b.shape| == 1))
      && (l.Permute(dims).Some? && axes[n - 1] == n - 1 ==>
            l.Permute(dims).value.Valid() && l.Permute(dims).value.Meaning() == Permuted(l.Meaning(), RowAxes(axes, n)))
      && (l.Permute(dims).Some? && axes[n - 1] != n - 1 ==> l.Permute(dims) == Some(l.Transpose()))
  {
    var n, axes := |l.Shape()|, Axes(dims, |l.Shape()|);
    if AreAxes(axes, n) && axes[n - 1] == n - 1 && AllOnes(l.a.shape) {
      RowsPermuted(l, RowAxes(axes, n));
    }
  }

  lemma RowsPermuted(l: Lora, perm: seq<nat>)
    requires l.Valid() && AllOnes(l.a.shape) && |perm| == |l.b.shape| && IsPermutation(perm)
    ensures var r := Lora(l.a, Permuted(l.b, perm), l.rank, l.width);
      r.Valid() && r.Meaning() == Permuted(l.Meaning(), perm)
  {
    var r := Lora(l.a, Permuted(l.b, perm), l.rank, l.width);
    assert r.Made();
    OnesStretch(r.a.shape, r.b.shape);
    SizeOfOnes(l.a.shape);
    forall idx | InBounds(r.b.shape, idx)
      ensures r.Meaning().At(idx) == Permuted(l.Meaning(), perm).At(idx)
    {
      OneMatrixRow(r, idx);
      OneMatrixRow(l, Unpermuted(l.b.shape, perm, idx));
    }
    SameTensor(r.Meaning(), Permuted(l.Meaning(), perm));
  }

  lemma {:induction false} DotSwaps(a: Matrix, b: Matrix, rank: nat, width: nat, i: nat, j: nat, n: nat)
    requires Sized(a, rank, width) && Sized(b, |b|, rank) && i < |b| && j < width && n <= rank
    ensures Dot(b[i], a, j, n) == Dot(Transposed(a, rank, width)[j], Transposed(b, |b|, rank), i, n)
    decreases n
  {
    if n > 0 {
      DotSwaps(a, b, rank, width, i, j, n - 1);
    }
  }

  lemma RowsOfMeaning(l: Lora)
    requires l.Valid() && |l.b.shape| == 1
    ensures Sized(l.b.data, |l.b.data|, l.rank) && Sized(l.OneMatrix(), l.rank, l.width)
    ensures Sized(l.Meaning().data, |l.b.data|, l.width)
    ensures forall i :: 0 <= i < |l.b.data| ==> l.Meaning().data[i] == Combine(l.b.data[i], l.OneMatrix(), l.rank, l.width)
  {
    l.TwoAxes();
    forall i | 0 <= i < |l.b.data|
      ensures l.Meaning().data[i] == Combine(l.b.data[i], l.OneMatrix(), l.rank, l.width)
    {
      OneMatrixRow(l, [i]);
      assert l.b.At([i]) == l.b.data[i] && l.Meaning().At([i]) == l.Meaning().data[i];
    }
  }

  /** The transposed pair stands for the transposed product. */
  lemma TransposeMeans(l: Lora)
    requires l.Valid() && |l.b.shape| == 1
    ensures l.Transpose().Valid() && Sized(l.Meaning().data, |l.b.data|, l.width)
    ensures l.Transpose().Meaning() == Tensor([l.width], Transposed(l.Meaning().data, |l.b.data|, l.width))
  {
    l.TwoAxes();
    RowsOfMeaning(l);
    RowsOfMeaning(l.Transpose());
    forall j | 0 <= j < l.width
      ensures l.Transpose().Meaning().data[j] == Transposed(l.Meaning().data, |l.b.data|, l.width)[j]
    {
      TransposedRow(l.a.data[0], l.b.data, l.Meaning().data, l.rank, l.width, j);
    }
  }

  lemma TransposedRow(a: Matrix, b: Matrix, product: Matrix, rank: nat, width: nat, j: nat)
    requires Sized(a, rank, width) && Sized(b, |b|, rank) && Sized(product, |b|, width) && j < width
    requires forall i :: 0 <= i < |b| ==> product[i] == Combine(b[i], a, rank, width)
    ensures Combine(Transposed(a, rank, width)[j], Transposed(b, |b|, rank), rank, |b|) == Transposed(product, |b|, width)[j]
  {
    forall i | 0 <= i < |b|
      ensures Dot(Transposed(a, rank, width)[j], Transposed(b, |b|, rank), i, rank) == product[i][j]
    {
      DotSwaps(a, b, rank, width, i, j, rank);
    }
  }

  // ----- stack

  function Firsts(ls: seq<Lora>): (ts: seq<Tensor<Matrix>>)
    ensures |ts| == |ls| && forall i :: 0 <= i < |ts| ==> ts[i] == ls[i].a
  {
    seq(|ls|, i requires 0 <= i < |ls| => ls[i].a)
  }

  function Seconds(ls: seq<Lora>): (ts: seq<Tensor<Row>>)
    ensures |ts| == |ls| && forall i :: 0 <= i < |ts| ==> ts[i] == ls[i].b
  {
    seq(|ls|, i requires 0 <= i < |ls| => ls[i].b)
  }

  function Meanings(ls: seq<Lora>): (ts: seq<Tensor<Row>>)
    requires forall i :: 0 <= i < |ls| ==> ls[i].Valid()
    ensures |ts| == |ls| && forall i :: 0 <= i < |ts| ==> ts[i] == ls[i].Meaning()
  {
    seq(|ls|, i requires 0 <= i < |ls| => ls[i].Meaning())
  }

  predicate OneSize(ls: seq<Lora>) {
    forall i :: 0 <= i < |ls| ==> ls[i].rank == ls[0].rank && ls[i].width == ls[0].width
  }

  function Stack(ls: seq<Lora>): (r: Option<Lora>)
    requires forall i :: 0 <= i < |ls| ==> ls[i].Made()
    ensures r.Some? ==> r.value.Made()
  {
    if ls == [] || !OneSize(ls) || !Alike(Firsts(ls)) || !Alike(Seconds(ls)) then None
    else
      StackMade(ls);
      Some(Lora(Stacked(Firsts(ls)), Stacked(Seconds(ls)), ls[0].rank, ls[0].width))
  }

  lemma StackMade(ls: seq<Lora>)
    requires ls != [] && forall i :: 0 <= i < |ls| ==> ls[i].Made()
    requires OneSize(ls) && Alike(Firsts(ls)) && Alike(Seconds(ls))
    ensures Lora(Stacked(Firsts(ls)), Stacked(Seconds(ls)), ls[0].rank, ls[0].width).Made()
  {
    var a, b := Stacked(Firsts(ls)), Stacked(Seconds(ls));
    forall idx | InBounds(a.shape, idx)
      ensures Sized(a.At(idx), ls[0].rank, ls[0].width)
    {
      assert Firsts(ls)[idx[0]] == ls[idx[0]].a;
    }
    forall idx | InBounds(b.shape, idx)
      ensures |b.At(idx)| == ls[0].rank
    {
      assert Seconds(ls)[idx[0]] == ls[idx[0]].b;
    }
  }

  lemma StackMeans(ls: seq<Lora>)
    requires (forall i :: 0 <= i < |ls| ==> ls[i].Made() && ls[i].Valid()) && Stack(ls).Some?
    ensures Alike(Meanings(ls)) && Stack(ls).value.Valid()
    ensures Stack(ls).value.Meaning() == Stacked(Meanings(ls))
  {
    var r := Stack(ls).value;
    var q, p, n := ls[0].a.shape, ls[0].b.shape, |ls|;
    assert Firsts(ls)[0] == ls[0].a && Seconds(ls)[0] == ls[0].b;
    assert ([n] + q)[1..] == q && ([n] + p)[1..] == p;
    assert Stretches(q, p);
    forall idx | InBounds(r.b.shape, idx)
      ensures r.Meaning().At(idx) == Stacked(Meanings(ls)).At(idx)
    {
      StackRow(ls, r, idx);
    }
    SameTensor(r.Meaning(), Stacked(Meanings(ls)));
  }

  lemma StackRow(ls: seq<Lora>, r: Lora, idx: seq<nat>)
    requires (forall i :: 0 <= i < |ls| ==> ls[i].Made() && ls[i].Valid()) && Stack(ls) == Some(r) && r.Valid()
    requires InBounds(r.b.shape, idx) && idx[0] < |ls| && InBounds(ls[idx[0]].b.shape, idx[1..])
    ensures r.RowAt(idx) == ls[idx[0]].RowAt(idx[1..])
  {
    var l := ls[idx[0]];
    CoverFits(r.a.shape, r.b.shape, idx);
    CoverFits(l.a.shape, l.b.shape, idx[1..]);
    assert Firsts(ls)[idx[0]] == l.a && Seconds(ls)[idx[0]] == l.b;
    assert r.a.shape[1..] == l.a.shape;
  }

  // ----- cat

  function Cat(ls: seq<Lora>): (r: Option<Lora>)
    requires forall i :: 0 <= i < |ls| ==> ls[i].Made()
    ensures r.Some? ==> r.value.Made()
  {
    if ls == [] || !OneSize(ls) || !AllJoinable(Seconds(ls)) then None
    else if |ls[0].b.shape| == 1 then
      if forall i :: 0 <= i < |ls| ==> ls[i].a == ls[0].a then Some(CatRows(ls)) else None
    else if AllJoinable(Firsts(ls)) then Some(CatBoth(ls))
    else None
  }

  function CatRows(ls: seq<Lora>): (r: Lora)
    requires (forall i :: 0 <= i < |ls| ==> ls[i].Made()) && ls != [] && OneSize(ls) && AllJoinable(Seconds(ls))
    ensures r.Made()
  {
    RowsMade(ls);
    WithRows(ls[0], Concatenated(Seconds(ls)))
  }

  function CatBoth(ls: seq<Lora>): (r: Lora)
    requires (forall i :: 0 <= i < |ls| ==> ls[i].Made()) && ls != [] && OneSize(ls)
    requires AllJoinable(Firsts(ls)) && AllJoinable(Seconds(ls))
    ensures r.Made()
  {
    RowsMade(ls);
    MatricesMade(ls);
    WithBoth(ls[0], Concatenated(Firsts(ls)), Concatenated(Seconds(ls)))
  }

  ghost predicate AreRows(t: Tensor<Row>, rank: nat) {
    t.Whole() && forall idx :: InBounds(t.shape, idx) ==> |t.At(idx)| == rank
  }

  ghost predicate AreMatrices(t: Tensor<Matrix>, rank: nat, width: nat) {
    t.Whole() && forall idx :: InBounds(t.shape, idx) ==> Sized(t.At(idx), rank, width)
  }

  function WithRows(l: Lora, b: Tensor<Row>): (r: Lora)
    requires l.Made() && |b.shape| == |l.b.shape| && AreRows(b, l.rank)
    ensures r.Made()
  {
    Lora(l.a, b, l.rank, l.width)
  }

  function WithBoth(l: Lora, a: Tensor<Matrix>, b: Tensor<Row>): (r: Lora)
    requires l.Made() && |a.shape| == |l.a.shape| && AreMatrices(a, l.rank, l.width)
    requires |b.shape| == |l.b.shape| && AreRows(b, l.rank)
    ensures r.Made()
  {
    Lora(a, b, l.rank, l.width)
  }

  lemma RowsMade(ls: seq<Lora>)
    requires (forall i :: 0 <= i < |ls| ==> ls[i].Made()) && ls != [] && OneSize(ls) && AllJoinable(Seconds(ls))
    ensures |Concatenated(Seconds(ls)).shape| == |ls[0].b.shape| && AreRows(Concatenated(Seconds(ls)), ls[0].rank)
  {
    var ok := (v: Row) => |v| == ls[0].rank;
    forall i, idx | 0 <= i < |ls| && InBounds(Seconds(ls)[i].shape, idx)
      ensures ok(Seconds(ls)[i].At(idx))
    {
      assert ls[i].Made();
    }
    ConcatenatedAll(Seconds(ls), ok);
    assert Seconds(ls)[0] == ls[0].b;
  }

  lemma MatricesMade(ls: seq<Lora>)
    requires (forall i :: 0 <= i < |ls| ==> ls[i].Made()) && ls != [] && OneSize(ls) && AllJoinable(Firsts(ls))
    ensures |Concatenated(Firsts(ls)).shape| == |ls[0].a.shape|
    ensures AreMatrices(Concatenated(Firsts(ls)), ls[0].rank, ls[0].width)
  {
    var ok := (m: Matrix) => Sized(m, ls[0].rank, ls[0].width);
    forall i, idx | 0 <= i < |ls| && InBounds(Firsts(ls)[i].shape, idx)
      ensures ok(Firsts(ls)[i].At(idx))
    {
      assert ls[i].Made();
    }
    ConcatenatedAll(Firsts(ls), ok);
    assert Firsts(ls)[0] == ls[0].a;
  }

  /** What all elements are, all elements of the concatenation are. */
  lemma {:induction false} ConcatenatedAll<T>(ts: seq<Tensor<T>>, ok: T -> bool)
    requires AllJoinable(ts)
    requires forall i :: 0 <= i < |ts| ==> forall idx :: InBounds(ts[i].shape, idx) ==> ok(ts[i].At(idx))
    ensures forall idx :: InBounds(Concatenated(ts).shape, idx) ==> ok(Concatenated(ts).At(idx))
    decreases |ts|
  {
    if |ts| > 1 {
      TailJoinable(ts);
      ConcatenatedAll(ts[1..], ok);
      forall idx | InBounds(Concatenated(ts).shape, idx)
        ensures ok(Concatenated(ts).At(idx))
      {
        JoinedAt(ts[0], Concatenated(ts[1..]), idx);
      }
    }
  }

  lemma CoverFirst(q: Shape, p: Shape, idx: seq<nat>)
    requires q != [] && Stretches(q, p) && q[0] == p[0] && InBounds(p, idx)
    ensures |q| < |idx| && InBounds(q, Cover(q, idx)) && Cover(q, idx) == [idx[0]] + Cover(q[1..], idx[1..])
  {
    CoverFits(q, p, idx);
  }

  /** Two pairs that differ only along the first axis, each with a matrix for each of its indices. */
  ghost predicate Joins(l: Lora, m: Lora) {
    && l.Valid() && m.Valid() && l.rank == m.rank && l.width == m.width
    && Joinable(l.a, m.a) && Joinable(l.b, m.b)
    && l.a.shape[0] == l.b.shape[0] && m.a.shape[0] == m.b.shape[0]
  }

  lemma JoinFront(l: Lora, m: Lora, idx: seq<nat>)
    requires Joins(l, m) && InBounds(Joined(l.b, m.b).shape, idx) && idx[0] < l.b.shape[0]
    requires Stretches(Joined(l.a, m.a).shape, Joined(l.b, m.b).shape)
    ensures InBounds(l.b.shape, idx) && Joined(l.b, m.b).At(idx) == l.b.At(idx)
    ensures var q := Joined(l.a, m.a).shape;
      |q| <= |idx| && InBounds(q, Cover(q, idx)) && |l.a.shape| <= |idx| && InBounds(l.a.shape, Cover(l.a.shape, idx)) &&
      Joined(l.a, m.a).At(Cover(q, idx)) == l.a.At(Cover(l.a.shape, idx))
  {
    var q := Joined(l.a, m.a).shape;
    CoverFirst(q, Joined(l.b, m.b).shape, idx);
    CoverFirst(l.a.shape, l.b.shape, idx);
    assert q[1..] == l.a.shape[1..];
    assert Cover(q, idx) == Cover(l.a.shape, idx);
    JoinedAt(l.a, m.a, Cover(q, idx));
    JoinedAt(l.b, m.b, idx);
  }

  lemma JoinBack(l: Lora, m: Lora, idx: seq<nat>, src: seq<nat>)
    requires Joins(l, m) && InBounds(Joined(l.b, m.b).shape, idx) && idx[0] >= l.b.shape[0]
    requires Stretches(Joined(l.a, m.a).shape, Joined(l.b, m.b).shape)
    requires src == [idx[0] - l.b.shape[0]] + idx[1..]
    ensures InBounds(m.b.shape, src) && Joined(l.b, m.b).At(idx) == m.b.At(src)
    ensures var q := Joined(l.a, m.a).shape;
      |q| <= |idx| && InBounds(q, Cover(q, idx)) && |m.a.shape| <= |src| && InBounds(m.a.shape, Cover(m.a.shape, src)) &&
      Joined(l.a, m.a).At(Cover(q, idx)) == m.a.At(Cover(m.a.shape, src))
  {
    var q := Joined(l.a, m.a).shape;
    CoverFirst(q, Joined(l.b, m.b).shape, idx);
    JoinedAt(l.b, m.b, idx);
    CoverFirst(m.a.shape, m.b.shape, src);
    assert src[1..] == idx[1..] && q[1..] == m.a.shape[1..];
    JoinedAt(l.a, m.a, Cover(q, idx));
  }

  lemma JoinMeans(l: Lora, m: Lora)
    requires Joins(l, m)
    ensures var r := Lora(Joined(l.a, m.a), Joined(l.b, m.b), l.rank, l.width);
      r.Valid() && r.Meaning() == Joined(l.Meaning(), m.Meaning())
  {
    var r := Lora(Joined(l.a, m.a), Joined(l.b, m.b), l.rank, l.width);
    var t, u := l.Meaning(), m.Meaning();
    JoinMade(l, m);
    forall idx | InBounds(r.b.shape, idx)
      ensures r.Meaning().At(idx) == Joined(t, u).At(idx)
    {
      JoinRow(l, m, r, t, u, idx);
    }
    SameTensor(r.Meaning(), Joined(t, u));
  }

  lemma JoinMade(l: Lora, m: Lora)
    requires Joins(l, m)
    ensures Lora(Joined(l.a, m.a), Joined(l.b, m.b), l.rank, l.width).Valid()
  {
    var r := Lora(Joined(l.a, m.a), Joined(l.b, m.b), l.rank, l.width);
    assert r.a.shape[1..] == l.a.shape[1..] && r.b.shape[1..] == l.b.shape[1..];
    forall idx | InBounds(r.a.shape, idx)
      ensures Sized(r.a.At(idx), l.rank, l.width)
    {
      JoinedAt(l.a, m.a, idx);
    }
    forall idx | InBounds(r.b.shape, idx)
      ensures |r.b.At(idx)| == l.rank
    {
      JoinedAt(l.b, m.b, idx);
    }
  }

  lemma JoinRow(l: Lora, m: Lora, r: Lora, t: Tensor<Row>, u: Tensor<Row>, idx: seq<nat>)
    requires Joins(l, m) && r == Lora(Joined(l.a, m.a), Joined(l.b, m.b), l.rank, l.width)
    requires r.Valid() && InBounds(r.b.shape, idx) && t == l.Meaning() && u == m.Meaning() && Joinable(t, u)
    ensures InBounds(Joined(t, u).shape, idx) && r.RowAt(idx) == Joined(t, u).At(idx)
  {
    JoinedAt(t, u, idx);
    if idx[0] < l.b.shape[0] {
      JoinFrontRow(l, m, r, idx);
    } else {
      JoinBackRow(l, m, r, idx, [idx[0] - l.b.shape[0]] + idx[1..]);
    }
  }

  lemma JoinFrontRow(l: Lora, m: Lora, r: Lora, idx: seq<nat>)
    requires Joins(l, m) && r == Lora(Joined(l.a, m.a), Joined(l.b, m.b), l.rank, l.width)
    requires r.Valid() && InBounds(r.b.shape, idx) && idx[0] < l.b.shape[0]
    ensures InBounds(l.b.shape, idx) && r.RowAt(idx) == l.RowAt(idx)
  {
    JoinFront(l, m, idx);
  }

  lemma JoinBackRow(l: Lora, m: Lora, r: Lora, idx: seq<nat>, src: seq<nat>)
    requires Joins(l, m) && r == Lora(Joined(l.a, m.a), Joined(l.b, m.b), l.rank, l.width)
    requires r.Valid() && InBounds(r.b.shape, idx) && idx[0] >= l.b.shape[0]
    requires src == [idx[0] - l.b.shape[0]] + idx[1..]
    ensures InBounds(m.b.shape, src) && r.RowAt(idx) == m.RowAt(src)
  {
    JoinBack(l, m, idx, src);
  }

  /** Every pair has a matrix for each index of the first axis, or there is only one pair. */
  predicate Aligned(ls: seq<Lora>)
    requires forall i :: 0 <= i < |ls| ==> ls[i].a.shape != [] && ls[i].b.shape != []
  {
    |ls| == 1 || forall i :: 0 <= i < |ls| ==> ls[i].a.shape[0] == ls[i].b.shape[0]
  }

  lemma {:induction false} AlignedMeans(ls: seq<Lora>)
    requires ls != [] && forall i :: 0 <= i < |ls| ==> ls[i].Made() && ls[i].Valid()
    requires OneSize(ls) && AllJoinable(Firsts(ls)) && AllJoinable(Seconds(ls))
    requires forall i :: 0 <= i < |ls| ==> ls[i].a.shape[0] == ls[i].b.shape[0]
    ensures var r := CatBoth(ls);
      && AllJoinable(Meanings(ls)) && r.Valid() && r.a.shape[0] == r.b.shape[0]
      && r.Meaning() == Concatenated(Meanings(ls))
    decreases |ls|
  {
    SameTails(ls);
    if |ls| > 1 {
      var rest := ls[1..];
      TailJoinable(Firsts(ls));
      TailJoinable(Seconds(ls));
      assert Firsts(ls)[1..] == Firsts(rest) && Seconds(ls)[1..] == Seconds(rest) && Meanings(ls)[1..] == Meanings(rest);
      AlignedMeans(rest);
      JoinMeans(ls[0], CatBoth(rest));
    }
  }

  lemma SameTails(ls: seq<Lora>)
    requires ls != [] && forall i :: 0 <= i < |ls| ==> ls[i].Valid()
    requires AllJoinable(Seconds(ls))
    ensures AllJoinable(Meanings(ls))
  {
    forall i | 0 <= i < |ls|
      ensures Meanings(ls)[i].Whole() && Meanings(ls)[i].shape != [] && Meanings(ls)[i].shape[1..] == Meanings(ls)[0].shape[1..]
    {
      assert Seconds(ls)[i].shape[1..] == Seconds(ls)[0].shape[1..];
    }
  }

  /** Rows joined under one matrix. */
  lemma JoinRowsMeans(l: Lora, m: Lora)
    requires l.Valid() && m.Valid() && l.a == m.a && l.rank == m.rank && l.width == m.width
    requires |l.b.shape| == 1 && Joinable(l.b, m.b)
    ensures var r := Lora(l.a, Joined(l.b, m.b), l.rank, l.width);
      r.Valid() && r.Meaning() == Joined(l.Meaning(), m.Meaning())
  {
    JoinedRows(l.b, m.b, l.rank);
    var r := WithRows(l, Joined(l.b, m.b));
    assert r.Valid();
    forall idx | InBounds(r.b.shape, idx)
      ensures r.Meaning().At(idx) == Joined(l.Meaning(), m.Meaning()).At(idx)
    {
      JoinRowsRow(l, m, r, idx);
    }
    SameTensor(r.Meaning(), Joined(l.Meaning(), m.Meaning()));
  }

  lemma JoinedRows(t: Tensor<Row>, u: Tensor<Row>, rank: nat)
    requires Joinable(t, u) && AreRows(t, rank) && AreRows(u, rank)
    ensures AreRows(Joined(t, u), rank)
  {
    forall idx | InBounds(Joined(t, u).shape, idx)
      ensures |Joined(t, u).At(idx)| == rank
    {
      JoinedAt(t, u, idx);
    }
  }

  lemma JoinRowsRow(l: Lora, m: Lora, r: Lora, idx: seq<nat>)
    requires l.Valid() && m.Valid() && l.a == m.a && l.rank == m.rank && l.width == m.width
    requires |l.b.shape| == 1 && Joinable(l.b, m.b)
    requires r == Lora(l.a, Joined(l.b, m.b), l.rank, l.width) && r.Valid() && InBounds(r.b.shape, idx)
    ensures r.RowAt(idx) == Joined(l.Meaning(), m.Meaning()).At(idx)
  {
    JoinedAt(l.b, m.b, idx);
    JoinedAt(l.Meaning(), m.Meaning(), idx);
    OneMatrixRow(r, idx);
    if idx[0] < l.b.shape[0] {
      OneMatrixRow(l, idx);
    } else {
      OneMatrixRow(m, [idx[0] - l.b.shape[0]] + idx[1..]);
    }
  }

  lemma {:induction false} CatRowsMeans(ls: seq<Lora>)
    requires ls != [] && forall i :: 0 <= i < |ls| ==> ls[i].Made() && ls[i].Valid()
    requires OneSize(ls) && AllJoinable(Seconds(ls)) && |ls[0].b.shape| == 1
    requires forall i :: 0 <= i < |ls| ==> ls[i].a == ls[0].a
    ensures AllJoinable(Meanings(ls)) && CatRows(ls).Valid() && CatRows(ls).Meaning() == Concatenated(Meanings(ls))
    decreases |ls|
  {
    SameTails(ls);
    if |ls| > 1 {
      var rest := ls[1..];
      TailJoinable(Seconds(ls));
      assert Seconds(ls)[1..] == Seconds(rest) && Meanings(ls)[1..] == Meanings(rest);
      assert Seconds(ls)[0] == ls[0].b && Seconds(ls)[1] == rest[0].b;
      CatRowsMeans(rest);
      JoinRowsMeans(ls[0], CatRows(rest));
    }
  }

  /** As many matrices as rows of the first axis only where each pair has as many. */
  lemma {:induction false} AxesCount(ls: seq<Lora>)
    requires forall i :: 0 <= i < |ls| ==> ls[i].a.shape != [] && ls[i].b.shape != [] && Stretches(ls[i].a.shape, ls[i].b.shape)
    requires forall i :: 0 <= i < |ls| ==> ls[i].b.shape[0] > 0
    ensures |ls| <= FirstAxes(Firsts(ls)) <= FirstAxes(Seconds(ls))
    ensures FirstAxes(Firsts(ls)) == FirstAxes(Seconds(ls)) <==>
      forall i :: 0 <= i < |ls| ==> ls[i].a.shape[0] == ls[i].b.shape[0]
    decreases |ls|
  {
    if ls != [] {
      AxesCount(ls[1..]);
      assert Firsts(ls)[1..] == Firsts(ls[1..]) && Seconds(ls)[1..] == Seconds(ls[1..]);
      assert Firsts(ls)[0] == ls[0].a && Seconds(ls)[0] == ls[0].b;
      assert forall i :: 1 <= i < |ls| ==> ls[i] == ls[1..][i - 1];
    }
  }

  /** Whatever the sizes, the concatenated pair has a product exactly if there is one matrix in all or one for each row of the first axis. */
  lemma CatValid(ls: seq<Lora>)
    requires ls != [] && forall i :: 0 <= i < |ls| ==> ls[i].Made() && ls[i].Valid()
    requires OneSize(ls) && AllJoinable(Firsts(ls)) && AllJoinable(Seconds(ls)) && |ls[0].b.shape| > 1
    ensures CatBoth(ls).Valid() <==> FirstAxes(Firsts(ls)) == 1 || FirstAxes(Firsts(ls)) == FirstAxes(Seconds(ls))
  {
    var r := CatBoth(ls);
    assert r.a.shape == [FirstAxes(Firsts(ls))] + ls[0].a.shape[1..] && r.b.shape == [FirstAxes(Seconds(ls))] + ls[0].b.shape[1..];
    assert r.a.shape[1..] == ls[0].a.shape[1..] && r.b.shape[1..] == ls[0].b.shape[1..];
  }

  /** Concatenated pairs stand for the concatenation exactly if they share one matrix or each brings all of its own. */
  lemma CatMeans(ls: seq<Lora>)
    requires (forall i :: 0 <= i < |ls| ==> ls[i].Made() && ls[i].Valid()) && Cat(ls).Some?
    ensures |ls[0].b.shape| == 1 || Aligned(ls) ==>
      AllJoinable(Meanings(ls)) && Cat(ls).value.Valid() && Cat(ls).value.Meaning() == Concatenated(Meanings(ls))
    ensures |ls[0].b.shape| > 1 && (forall i :: 0 <= i < |ls| ==> ls[i].b.shape[0] > 0) ==>
      (Cat(ls).value.Valid() <==> Aligned(ls))
    ensures |ls[0].b.shape| > 1 ==>
      (Cat(ls).value.Valid() <==> FirstAxes(Firsts(ls)) == 1 || FirstAxes(Firsts(ls)) == FirstAxes(Seconds(ls)))
  {
    if |ls[0].b.shape| > 1 {
      CatValid(ls);
    }
    if |ls[0].b.shape| == 1 {
      CatRowsMeans(ls);
    } else {
      SameTails(ls);
      if |ls| == 1 {
        assert Firsts(ls)[0] == ls[0].a && Seconds(ls)[0] == ls[0].b && Meanings(ls)[0] == ls[0].Meaning();
        assert CatBoth(ls) == ls[0];
      } else if Aligned(ls) {
        AlignedMeans(ls);
      } else if forall i :: 0 <= i < |ls| ==> ls[i].b.shape[0] > 0 {
        AxesCount(ls);
        assert CatBoth(ls).a.shape[0] == FirstAxes(Firsts(ls)) && CatBoth(ls).b.shape[0] == FirstAxes(Seconds(ls));
      }
    }
  }
}
