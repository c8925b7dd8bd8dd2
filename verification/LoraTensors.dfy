/** Low-rank weight pairs, transformed as if they were the product `B A`. */
module LoraTensors {
  import opened Wrappers
  import opened Tensors

  type Row = seq<real>

  type Matrix = seq<Row>

  predicate Sized(m: Matrix, rows: nat, width: nat) {
    |m| == rows && forall i :: 0 <= i < |m| ==> |m[i]| == width
  }

  /** The sum of `v[k] * m[k][j]` over the first `n` rows. */
  function Dot(v: Row, m: Matrix, j: nat, n: nat): real
    requires n <= |v| && n <= |m| && forall k :: 0 <= k < |m| ==> j < |m[k]|
  {
    if n == 0 then 0.0 else Dot(v, m, j, n - 1) + v[n - 1] * m[n - 1][j]
  }

  /** One row of the product. */
  function Combine(v: Row, a: Matrix, rank: nat, width: nat): (r: Row)
    requires |v| == rank && Sized(a, rank, width)
    ensures |r| == width
  {
    seq(width, j requires 0 <= j < width => Dot(v, a, j, rank))
  }

  /** Columns `left` to `right` of each row. */
  function Columns(m: Matrix, rows: nat, width: nat, left: nat, right: nat): (c: Matrix)
    requires left <= right <= width && Sized(m, rows, width)
    ensures Sized(c, rows, right - left) && forall k :: 0 <= k < rows ==> c[k] == m[k][left..right]
  {
    seq(rows, k requires 0 <= k < rows => m[k][left..right])
  }

  function Transposed(m: Matrix, rows: nat, width: nat): (t: Matrix)
    requires Sized(m, rows, width)
    ensures Sized(t, width, rows)
    ensures forall i, j :: 0 <= i < rows && 0 <= j < width ==> t[j][i] == m[i][j]
  {
    seq(width, j requires 0 <= j < width => seq(rows, i requires 0 <= i < rows => m[i][j]))
  }

  // ----- Python's indices

  /** An integer index, counted from the end when negative. */
  function Normal(i: int, n: nat): Option<nat> {
    if 0 <= i < n then Some(i) else if i < 0 <= i + n then Some(i + n) else None
  }

  /** A slice of step 1; either end may be left open. */
  datatype Slice = Slice(start: Option<int>, stop: Option<int>) {
    function Bounds(n: nat): (r: (nat, nat))
      ensures r.0 <= r.1 <= n
    {
      var lo := if start.Some? then Clamped(start.value, n) else 0;
      var hi := if stop.Some? then Clamped(stop.value, n) else n;
      (lo, if hi < lo then lo else hi)
    }

    function Length(n: nat): (r: nat)
      ensures r <= n
    {
      Bounds(n).1 - Bounds(n).0
    }

    function Select(n: nat): Selector {
      Span(Bounds(n).0, Bounds(n).1)
    }
  }

  function Clamped(i: int, n: nat): (r: nat)
    ensures r <= n
  {
    if i > n then n else if i >= 0 then i else if i + n >= 0 then i + n else 0
  }

  datatype Position = At(i: int) | Of(s: Slice)

  /** What a tuple selects from the axes of `b`. */
  function Selectors(ps: seq<Position>, shape: Shape): (r: Option<seq<Selector>>)
    ensures r.Some? ==> Selects(shape, r.value) && |r.value| == |ps|
  {
    if ps == [] then Some([])
    else if shape == [] then None
    else
      var rest :- Selectors(ps[1..], shape[1..]);
      match ps[0]
      case At(i) => if Normal(i, shape[0]).Some? then Some([One(Normal(i, shape[0]).value)] + rest) else None
      case Of(s) => Some([s.Select(shape[0])] + rest)
  }

  /** What the same tuple selects from `a`: integers wrap around, slices take the whole axis. */
  function Wrapped(ps: seq<Position>, shape: Shape): (r: Option<seq<Selector>>)
    ensures r.Some? ==> Selects(shape, r.value) && |r.value| == |ps|
  {
    if ps == [] then Some([])
    else if shape == [] then None
    else
      var rest :- Wrapped(ps[1..], shape[1..]);
      match ps[0]
      case At(i) => if shape[0] == 0 then None else Some([One(i % shape[0])] + rest)
      case Of(_) => Some([Span(0, shape[0])] + rest)
  }

  /** The two factors keep as many axes. */
  lemma {:induction false} TupleShapes(lead: seq<Position>, rows: Slice, q: Shape, p: Shape)
    requires |lead| == |q| == |p| - 1 && Selectors(lead + [Of(rows)], p).Some? && Wrapped(lead, q).Some?
    ensures |SelectedShape(p, Selectors(lead + [Of(rows)], p).value)| == |SelectedShape(q, Wrapped(lead, q).value)| + 1
    decreases |lead|
  {
    if lead == [] {
      assert Selectors([Of(rows)][1..], p[1..]) == Some([]);
      FirstSelected(p, rows.Select(p[0]));
    } else {
      assert (lead + [Of(rows)])[1..] == lead[1..] + [Of(rows)];
      TupleShapes(lead[1..], rows, q[1..], p[1..]);
    }
  }

  // ----- pairs

  /** `a` has one matrix for each index of its leading axes, `b` one row for each index of its leading axes and row axis. */
  datatype Lora = Lora(a: Tensor<Matrix>, b: Tensor<Row>, rank: nat, width: nat) {

    /** What the constructor checks: as many axes in each, and ranks that agree. */
    ghost predicate Made() {
      && a.Whole() && b.Whole() && |b.shape| == |a.shape| + 1 && rank > 0
      && (forall idx :: InBounds(a.shape, idx) ==> Sized(a.At(idx), rank, width))
      && (forall idx :: InBounds(b.shape, idx) ==> |b.At(idx)| == rank)
    }

    /** The leading axes of `a` stretch to those of `b`, so the pair has a product. */
    ghost predicate Valid() {
      Made() && Stretches(a.shape, b.shape)
    }

    function Shape(): Shape {
      b.shape + [width]
    }

    /** The product the pair stands for, row by row. */
    function Meaning(): (t: Tensor<Row>)
      requires Valid()
      ensures t.Whole() && t.shape == b.shape
      ensures forall idx :: InBounds(b.shape, idx) ==> t.At(idx) == RowAt(idx)
    {
      Build(b.shape, idx requires InBounds(b.shape, idx) => RowAt(idx))
    }

    function RowAt(idx: seq<nat>): (r: Row)
      requires Valid() && InBounds(b.shape, idx)
      ensures |r| == width
    {
      CoverFits(a.shape, b.shape, idx);
      Combine(b.At(idx), a.At(Cover(a.shape, idx)), rank, width)
    }

    // ----- __getitem__

    function GetInt(i: int): (r: Option<Lora>)
      requires Made()
      ensures r.Some? ==> r.value.Made()
    {
      if |b.shape| == 1 then None
      else
        var x :- Normal(i, a.shape[0]);
        var y :- Normal(i, b.shape[0]);
        FirstSelected(a.shape, One(x));
        FirstSelected(b.shape, One(y));
        Some(Lora(Selected(a, [One(x)]), Selected(b, [One(y)]), rank, width))
    }

    function GetSlice(s: Slice): (r: Lora)
      requires Made()
      ensures r.Made()
    {
      FirstSelected(b.shape, s.Select(b.shape[0]));
      var rows := Selected(b, [s.Select(b.shape[0])]);
      if |b.shape| == 1 then Lora(a, rows, rank, width)
      else
        FirstSelected(a.shape, s.Select(a.shape[0]));
        Lora(Selected(a, [s.Select(a.shape[0])]), rows, rank, width)
    }

    /** A position for each leading axis, and slices of the rows and the columns. */
    function GetTuple(lead: seq<Position>, rows: Slice, columns: Slice): (r: Option<Lora>)
      requires Made()
      ensures r.Some? ==> r.value.Made()
    {
      if |lead| != |a.shape| then None
      else
        var inB :- Selectors(lead + [Of(rows)], b.shape);
        var inA :- Wrapped(lead, a.shape);
        var (left, right) := columns.Bounds(width);
        TupleShapes(lead, rows, a.shape, b.shape);
        Some(SelectCut(inA, inB, left, right))
    }

    function SelectCut(inA: seq<Selector>, inB: seq<Selector>, left: nat, right: nat): (r: Lora)
      requires Made() && Selects(a.shape, inA) && Selects(b.shape, inB) && left <= right <= width
      requires |SelectedShape(b.shape, inB)| == |SelectedShape(a.shape, inA)| + 1
      ensures r.Made() && r.a.shape == SelectedShape(a.shape, inA) && r.b.shape == SelectedShape(b.shape, inB)
    {
      Lora(EachCut(Selected(a, inA), rank, width, left, right), Selected(b, inB), rank, right - left)
    }

    // ----- reshape, permute and transpose

    /** The last axis must stay; `a` keeps its one matrix under leading axes of length 1. */
    function Reshape(dims: seq<int>): (r: Option<Lora>)
      requires Made()
      ensures r.Some? ==> r.value.Made()
    {
      if |dims| < 2 then None
      else
        var shape :- Expanded(dims, Size(b.shape) * width);
        var k := |shape| - 1;
        if shape[k] != width || !(Size(a.shape) == 1 || width == 0) then None
        else
          var rows :- Reshaped(b, shape[..k]);
          SameElements(b, rows);
          Some(Lora(Single(k - 1, OneMatrix()), rows, rank, width))
    }

    /** The only matrix of `a`; where rows have no elements all matrices are the same. */
    function OneMatrix(): (m: Matrix)
      requires Made() && (Size(a.shape) == 1 || width == 0)
      ensures Sized(m, rank, width)
    {
      if Size(a.shape) == 1 then
        assert a.data[0] == a.At(Index(a.shape, 0)) by {
          OffsetOfIndex(a.shape, 0);
        }
        a.data[0]
      else seq(rank, _ => [])
    }

    function Permute(dims: seq<int>): (r: Option<Lora>)
      requires Made()
      ensures r.Some? ==> r.value.Made()
    {
      var n := |Shape()|;
      var axes := seq(|dims|, d requires 0 <= d < |dims| => if dims[d] >= 0 then dims[d] else dims[d] + n);
      if !AreAxes(axes, n) then None
      else if axes[n - 1] == n - 1 then
        if AllOnes(a.shape) then
          LastAxisStays(axes, n);
          Some(Lora(a, Permuted(b, axes[..n - 1]), rank, width))
        else None
      else if n == 2 then Some(Transpose())
      else None
    }

    /** Both factors are transposed and change places. */
    function Transpose(): (r: Lora)
      requires Made() && |b.shape| == 1
      ensures r.Made()
    {
      TwoAxes();
      var n := |b.data|;
      Lora(Tensor([], [Transposed(b.data, n, rank)]), Tensor([width], Transposed(a.data[0], rank, width)), rank, n)
    }

    lemma TwoAxes()
      requires Made() && |b.shape| == 1
      ensures a.shape == [] && |a.data| == 1 && Sized(a.data[0], rank, width)
      ensures b.shape == [|b.data|] && Sized(b.data, |b.data|, rank)
    {
      assert a.At([]) == a.data[0];
      assert Size(b.shape) == b.shape[0] * Size(b.shape[1..]);
      forall n | 0 <= n < |b.data|
        ensures |b.data[n]| == rank
      {
        assert b.At([n]) == b.data[n];
      }
    }

    function SwapAxes(i: int, j: int): (r: Option<Lora>)
      requires Made()
      ensures r.Some? ==> r.value.Made()
    {
      var n := |Shape()|;
      var x :- Normal(i, n);
      var y :- Normal(j, n);
      Permute(seq(n, d => if d == x then y else if d == y then x else d))
    }

    /** LlamaModel.permute: heads of two halves each, the two middle axes swapped. */
    function PermuteHeads(nHead: nat): Option<Lora>
      requires Made()
    {
      if nHead == 0 then None
      else
        var heads :- Reshape([nHead, 2, Shape()[0] / nHead / 2] + Shape()[1..]);
        var swapped :- heads.SwapAxes(1, 2);
        swapped.Reshape(Shape())
    }
  }

  // ----- broadcasting

  predicate Stretches(q: Shape, p: Shape)
    decreases |q|
  {
    if q == [] then |p| == 1 else |p| > 1 && (q[0] == 1 || q[0] == p[0]) && Stretches(q[1..], p[1..])
  }

  /** The matrix that serves an index of `b`. */
  function Cover(q: Shape, idx: seq<nat>): (c: seq<nat>)
    requires |q| <= |idx|
    ensures |c| == |q|
    decreases |q|
  {
    if q == [] then [] else [if q[0] == 1 then 0 else idx[0]] + Cover(q[1..], idx[1..])
  }

  lemma {:induction false} CoverFits(q: Shape, p: Shape, idx: seq<nat>)
    requires Stretches(q, p) && InBounds(p, idx)
    ensures |q| < |idx| && InBounds(q, Cover(q, idx))
    decreases |q|
  {
    if q != [] {
      CoverFits(q[1..], p[1..], idx[1..]);
    }
  }

  /** One matrix under `n` leading axes of length 1. */
  function Single<T>(n: nat, x: T): (t: Tensor<T>)
    ensures t.Whole() && t.shape == seq(n, _ => 1) && t.data == [x]
    ensures forall idx :: InBounds(t.shape, idx) ==> t.At(idx) == x
  {
    SizeOfOnes(seq(n, _ => 1));
    Tensor(seq(n, _ => 1), [x])
  }

  lemma {:induction false} SizeOfOnes(q: Shape)
    requires AllOnes(q)
    ensures Size(q) == 1
    decreases |q|
  {
    if q != [] {
      SizeOfOnes(q[1..]);
    }
  }

  predicate AllOnes(q: Shape) {
    forall d :: 0 <= d < |q| ==> q[d] == 1
  }

  // ----- shapes with an open axis

  function Product(dims: seq<int>): int {
    if dims == [] then 1 else (if dims[0] == -1 then 1 else dims[0]) * Product(dims[1..])
  }

  /** Each -1 stands for what the other lengths leave. */
  function Expanded(dims: seq<int>, elements: nat): (r: Option<Shape>)
    ensures r.Some? ==> |r.value| == |dims|
  {
    if exists d :: 0 <= d < |dims| && dims[d] < -1 then None
    else if -1 in dims then
      var known := Product(dims);
      if known <= 0 || elements % known != 0 then None
      else Some(seq(|dims|, d requires 0 <= d < |dims| => if dims[d] == -1 then elements / known else dims[d]))
    else Some(seq(|dims|, d requires 0 <= d < |dims| => dims[d]))
  }

  predicate AreAxes(axes: seq<int>, n: nat) {
    && |axes| == n
    && (forall d :: 0 <= d < n ==> 0 <= axes[d] < n)
    && (forall d, e :: 0 <= d < e < n ==> axes[d] != axes[e])
  }

  lemma LastAxisStays(axes: seq<int>, n: nat)
    requires n > 0 && AreAxes(axes, n) && axes[n - 1] == n - 1
    ensures forall d :: 0 <= d < n - 1 ==> 0 <= axes[d] < n - 1
  {
  }

  function EachCut(t: Tensor<Matrix>, rank: nat, width: nat, left: nat, right: nat): (u: Tensor<Matrix>)
    requires t.Whole() && left <= right <= width
    requires forall idx :: InBounds(t.shape, idx) ==> Sized(t.At(idx), rank, width)
    ensures u.Whole() && u.shape == t.shape
    ensures forall idx :: InBounds(t.shape, idx) ==> u.At(idx) == Columns(t.At(idx), rank, width, left, right)
  {
    Build(t.shape, idx requires InBounds(t.shape, idx) && Sized(t.At(idx), rank, width) =>
                     Columns(t.At(idx), rank, width, left, right))
  }

  // ----- the data behind the indices

  lemma SameElements<T>(t: Tensor<T>, u: Tensor<T>)
    requires t.Whole() && u.Whole() && t.data == u.data
    ensures forall idx :: InBounds(u.shape, idx) ==> exists src :: InBounds(t.shape, src) && t.At(src) == u.At(idx)
  {
    forall idx | InBounds(u.shape, idx)
      ensures exists src :: InBounds(t.shape, src) && t.At(src) == u.At(idx)
    {
      OffsetOfIndex(t.shape, Offset(u.shape, idx));
      assert t.At(Index(t.shape, Offset(u.shape, idx))) == u.At(idx);
    }
  }
}
