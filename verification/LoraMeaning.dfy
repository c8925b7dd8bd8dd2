/** Every operation on a pair commutes with the product it stands for, or exactly when it does. */
module LoraMeaning {
  import opened Wrappers
  import opened Tensors
  import opened LoraTensors

  // ----- selecting from both factors

  /** One axis: the matrix selected is the one that serves the selected row. */
  predicate AxisFits(n: nat, x: Selector, y: Selector) {
    match (x, y)
    case (One(i), One(j)) => i == (if n == 1 then 0 else j)
    case (Span(lo, hi), Span(low, high)) =>
      || (lo == low && hi == high)
      || (n == 1 && lo == 0 && hi == 1)
      || (low == high && lo <= hi <= lo + 1)
    case _ => false
  }

  /** `b` may select from its row axis besides. */
  predicate Fits(q: Shape, inA: seq<Selector>, inB: seq<Selector>)
    requires |inA| <= |q|
    decreases |q|
  {
    if inA == [] then inB == [] || (q == [] && |inB| == 1 && inB[0].Span?)
    else inB != [] && AxisFits(q[0], inA[0], inB[0]) && Fits(q[1..], inA[1..], inB[1..])
  }

  lemma {:induction false} SelectionStretches(q: Shape, p: Shape, inA: seq<Selector>, inB: seq<Selector>)
    requires Stretches(q, p) && Selects(q, inA) && Selects(p, inB) && |inA| <= |q| && Fits(q, inA, inB)
    ensures Stretches(SelectedShape(q, inA), SelectedShape(p, inB))
    decreases |q|
  {
    if inA == [] {
      if inB != [] {
        FirstSelected(p, inB[0]);
        assert inB == [inB[0]];
      }
    } else {
      SelectionStretches(q[1..], p[1..], inA[1..], inB[1..]);
      ConsStretches(q, p, inA, inB);
    }
  }

  lemma ConsStretches(q: Shape, p: Shape, inA: seq<Selector>, inB: seq<Selector>)
    requires q != [] && Stretches(q, p) && Selects(q, inA) && Selects(p, inB)
    requires inA != [] && inB != [] && AxisFits(q[0], inA[0], inB[0])
    requires Stretches(SelectedShape(q[1..], inA[1..]), SelectedShape(p[1..], inB[1..]))
    ensures Stretches(SelectedShape(q, inA), SelectedShape(p, inB))
  {
    if inA[0].Span? {
      var restA, restB := SelectedShape(q[1..], inA[1..]), SelectedShape(p[1..], inB[1..]);
      var m, n := inA[0].hi - inA[0].lo, inB[0].hi - inB[0].lo;
      assert ([m] + restA)[1..] == restA && ([n] + restB)[1..] == restB;
    }
  }

  /** Selecting and stretching commute. */
  lemma {:induction false} SelectionCovers(q: Shape, p: Shape, inA: seq<Selector>, inB: seq<Selector>, idx: seq<nat>)
    requires |q| + 1 == |p| && Stretches(q, p) && Selects(q, inA) && Selects(p, inB) && |inA| <= |q| && Fits(q, inA, inB)
    requires InBounds(SelectedShape(p, inB), idx)
    ensures Stretches(SelectedShape(q, inA), SelectedShape(p, inB))
    ensures |SelectedShape(q, inA)| < |idx| && InBounds(SelectedShape(q, inA), Cover(SelectedShape(q, inA), idx))
    ensures Source(q, inA, Cover(SelectedShape(q, inA), idx)) == Cover(q, Source(p, inB, idx))
    decreases |q|
  {
    SelectionStretches(q, p, inA, inB);
    CoverFits(SelectedShape(q, inA), SelectedShape(p, inB), idx);
    if inA == [] {
      if inB == [] {
      } else {
        assert Cover(q, Source(p, inB, idx)) == [];
      }
    } else if inA[0].One? {
      SelectionCovers(q[1..], p[1..], inA[1..], inB[1..], idx);
      SourceOfOne(q, inA, Cover(SelectedShape(q, inA), idx));
      SourceOfOne(p, inB, idx);
      CoverCons(q, inB[0].i, Source(p[1..], inB[1..], idx));
    } else {
      SelectionCovers(q[1..], p[1..], inA[1..], inB[1..], idx[1..]);
      var shape, rest := SelectedShape(q, inA), SelectedShape(q[1..], inA[1..]);
      CoverOfSpan(inA[0].hi - inA[0].lo, rest, shape, idx);
      SourceOfSpan(p, inB, idx);
      SourceOfSpan(q, inA, Cover(shape, idx));
      AxisCovers(q[0], p[0], inA[0], inB[0], idx[0]);
      CoverCons(q, inB[0].lo + idx[0], Source(p[1..], inB[1..], idx[1..]));
    }
  }

  lemma StretchesShorter(q: Shape, p: Shape)
    requires Stretches(q, p)
    ensures |q| + 1 == |p|
    decreases |q|
  {
    if q != [] {
      StretchesShorter(q[1..], p[1..]);
    }
  }

  lemma CoverCons(q: Shape, i: nat, idx: seq<nat>)
    requires q != [] && |q| - 1 <= |idx|
    ensures Cover(q, [i] + idx) == [if q[0] == 1 then 0 else i] + Cover(q[1..], idx)
  {
    assert ([i] + idx)[1..] == idx;
  }

  lemma SourceOfOne(shape: Shape, sel: seq<Selector>, idx: seq<nat>)
    requires Selects(shape, sel) && sel != [] && sel[0].One? && InBounds(SelectedShape(shape, sel), idx)
    ensures Source(shape, sel, idx) == [sel[0].i] + Source(shape[1..], sel[1..], idx)
  {
  }

  lemma SourceOfSpan(shape: Shape, sel: seq<Selector>, idx: seq<nat>)
    requires Selects(shape, sel) && sel != [] && sel[0].Span? && InBounds(SelectedShape(shape, sel), idx)
    ensures idx != [] && idx[0] < sel[0].hi - sel[0].lo && InBounds(SelectedShape(shape[1..], sel[1..]), idx[1..])
    ensures Source(shape, sel, idx) == [sel[0].lo + idx[0]] + Source(shape[1..], sel[1..], idx[1..])
  {
  }

  lemma AxisCovers(n: nat, p: nat, x: Selector, y: Selector, i: nat)
    requires (n == 1 || n == p) && x.Span? && y.Span? && AxisFits(n, x, y)
    requires x.lo <= x.hi <= n && y.lo + i < y.hi <= p
    ensures x.lo + (if x.hi - x.lo == 1 then 0 else i) == if n == 1 then 0 else y.lo + i
  {
  }

  lemma CoverOfSpan(m: nat, rest: Shape, shape: Shape, idx: seq<nat>)
    requires shape == [m] + rest && |shape| <= |idx|
    ensures Cover(shape, idx)[0] == (if m == 1 then 0 else idx[0]) && Cover(shape, idx)[1..] == Cover(rest, idx[1..])
  {
    assert shape[1..] == rest;
  }

  /** Factors selected in step make a pair that stands for the selected product. */
  lemma SelectionMeans(l: Lora, inA: seq<Selector>, inB: seq<Selector>)
    requires l.Valid() && Selects(l.a.shape, inA) && Selects(l.b.shape, inB) && |inA| <= |l.a.shape|
    requires Fits(l.a.shape, inA, inB)
    ensures var r := Lora(Selected(l.a, inA), Selected(l.b, inB), l.rank, l.width);
      r.Valid() && r.Meaning() == Selected(l.Meaning(), inB)
  {
    var r := Lora(Selected(l.a, inA), Selected(l.b, inB), l.rank, l.width);
    SelectionStretches(l.a.shape, l.b.shape, inA, inB);
    StretchesShorter(r.a.shape, r.b.shape);
    assert r.Made();
    forall idx | InBounds(r.b.shape, idx)
      ensures r.Meaning().At(idx) == Selected(l.Meaning(), inB).At(idx)
    {
      SelectionCovers(l.a.shape, l.b.shape, inA, inB, idx);
      assert r.RowAt(idx) == l.RowAt(Source(l.b.shape, inB, idx));
    }
    SameTensor(r.Meaning(), Selected(l.Meaning(), inB));
  }

  // ----- __getitem__

  /** An integer that fits the first axis works exactly if it fits that axis of `a` too. */
  lemma IntMeans(l: Lora, i: int)
    requires l.Valid()
    ensures l.GetInt(i).Some? <==>
      |l.b.shape| > 1 && Normal(i, l.b.shape[0]).Some? && (l.a.shape[0] == l.b.shape[0] || i == 0 || i == -1)
    ensures l.GetInt(i).Some? ==>
      var r := l.GetInt(i).value;
      r.Valid() && r.Meaning() == Selected(l.Meaning(), [One(Normal(i, l.b.shape[0]).value)])
  {
    if l.GetInt(i).Some? {
      var inA, inB := [One(Normal(i, l.a.shape[0]).value)], [One(Normal(i, l.b.shape[0]).value)];
      assert inA[1..] == [] && inB[1..] == [];
      assert Fits(l.a.shape[1..], [], []);
      SelectionMeans(l, inA, inB);
    }
  }

  /** A slice works exactly if `a` is sliced alike, keeps its one matrix, or no row is left. */
  lemma SliceMeans(l: Lora, s: Slice)
    requires l.Valid()
    ensures var r := l.GetSlice(s);
      && (r.Valid() <==> |l.b.shape| == 1 || l.a.shape[0] == l.b.shape[0] || s.Length(1) == 1 || s.Length(l.b.shape[0]) == 0)
      && (r.Valid() ==> r.Meaning() == Selected(l.Meaning(), [s.Select(l.b.shape[0])]))
  {
    var n := l.b.shape[0];
    var inB := [s.Select(n)];
    assert inB[1..] == [];
    if |l.b.shape| == 1 {
      SelectionMeans(l, [], inB);
      assert Selected(l.a, []) == l.a by {
        SameTensor(Selected(l.a, []), l.a);
      }
    } else {
      var inA := [s.Select(l.a.shape[0])];
      assert inA[1..] == [];
      FirstSelected(l.a.shape, inA[0]);
      FirstSelected(l.b.shape, inB[0]);
      StretchesFirst(s.Length(l.a.shape[0]), s.Length(n), l.a.shape[1..], l.b.shape[1..]);
      if AxisFits(l.a.shape[0], inA[0], inB[0]) {
        assert Fits(l.a.shape[1..], [], []);
        SelectionMeans(l, inA, inB);
      }
    }
  }

  lemma StretchesFirst(m: nat, n: nat, q: Shape, p: Shape)
    requires Stretches(q, p)
    ensures Stretches([m] + q, [n] + p) <==> m == 1 || m == n
  {
    assert ([m] + q)[1..] == q && ([n] + p)[1..] == p;
  }

  /** Two blocks of one row under one matrix, as a reshape leaves them: the second block cannot be indexed or sliced. */
  lemma SharedMatrixIsLost()
    ensures var l := Lora(Tensor([1], [[[1.0]]]), Tensor([2, 1], [[1.0], [2.0]]), 1, 1);
      && l.Valid() && l.GetInt(0).Some? && l.GetInt(1).None?
      && l.GetSlice(Slice(Some(0), Some(1))).Valid() && !l.GetSlice(Slice(Some(1), Some(2))).Valid()
  {
    var q, p := [1], [2, 1];
    assert q[1..] == [] && p[1..] == [1] && [1][1..] == [];
    assert Size([1]) == 1 && Size(p) == 2;
    var l := Lora(Tensor(q, [[[1.0]]]), Tensor(p, [[1.0], [2.0]]), 1, 1);
    assert l.Valid();
    IntMeans(l, 0);
    IntMeans(l, 1);
    SliceMeans(l, Slice(Some(0), Some(1)));
    SliceMeans(l, Slice(Some(1), Some(2)));
  }

  /** No slice shortens a leading axis along which `a` has more than one matrix. */
  predicate KeepsAxes(lead: seq<Position>, q: Shape, p: Shape)
    requires |lead| <= |q| && |lead| <= |p|
    decreases |lead|
  {
    lead == [] || (
      && (lead[0].At? || q[0] == 1 || lead[0].s.Length(p[0]) == p[0])
      && KeepsAxes(lead[1..], q[1..], p[1..]))
  }

  /** What the tuple selects from the factors is in step exactly if it keeps the shared axes. */
  ghost predicate InStep(lead: seq<Position>, rows: Slice, q: Shape, p: Shape) {
    && |lead| == |q| < |p| && Selectors(lead + [Of(rows)], p).Some? && Wrapped(lead, q).Some?
    && var inA, inB := Wrapped(lead, q).value, Selectors(lead + [Of(rows)], p).value;
      && SelectedShape(p, inB) != []
      && (KeepsAxes(lead, q, p) <==> Stretches(SelectedShape(q, inA), SelectedShape(p, inB)))
      && (KeepsAxes(lead, q, p) ==> Fits(q, inA, inB))
  }

  lemma {:induction false} TupleFits(lead: seq<Position>, rows: Slice, q: Shape, p: Shape)
    requires |lead| == |q| == |p| - 1 && Stretches(q, p) && Selectors(lead + [Of(rows)], p).Some?
    ensures InStep(lead, rows, q, p)
    decreases |lead|
  {
    if lead == [] {
      assert Selectors([Of(rows)][1..], p[1..]) == Some([]);
      FirstSelected(p, rows.Select(p[0]));
    } else {
      assert (lead + [Of(rows)])[1..] == lead[1..] + [Of(rows)];
      TupleFits(lead[1..], rows, q[1..], p[1..]);
      if lead[0].At? {
        TupleFitsInt(lead, rows, q, p);
      } else {
        TupleFitsSlice(lead, rows, q, p);
      }
    }
  }

  lemma TupleFitsInt(lead: seq<Position>, rows: Slice, q: Shape, p: Shape)
    requires lead != [] && lead[0].At? && |lead| == |q| < |p| && Stretches(q, p)
    requires (lead + [Of(rows)])[1..] == lead[1..] + [Of(rows)] && Selectors(lead + [Of(rows)], p).Some?
    requires InStep(lead[1..], rows, q[1..], p[1..])
    ensures InStep(lead, rows, q, p)
  {
    var restA, restB := Wrapped(lead[1..], q[1..]).value, Selectors(lead[1..] + [Of(rows)], p[1..]).value;
    WrapsAlike(lead[0].i, q[0], p[0]);
    var inA, inB := [One(lead[0].i % q[0])] + restA, [One(Normal(lead[0].i, p[0]).value)] + restB;
    assert inA[1..] == restA && inB[1..] == restB;
    assert Wrapped(lead, q) == Some(inA) && Selectors(lead + [Of(rows)], p) == Some(inB);
  }

  lemma TupleFitsSlice(lead: seq<Position>, rows: Slice, q: Shape, p: Shape)
    requires lead != [] && lead[0].Of? && |lead| == |q| < |p| && Stretches(q, p)
    requires (lead + [Of(rows)])[1..] == lead[1..] + [Of(rows)] && Selectors(lead + [Of(rows)], p).Some?
    requires InStep(lead[1..], rows, q[1..], p[1..])
    ensures InStep(lead, rows, q, p)
  {
    var restA, restB := Wrapped(lead[1..], q[1..]).value, Selectors(lead[1..] + [Of(rows)], p[1..]).value;
    var x, y := Span(0, q[0]), lead[0].s.Select(p[0]);
    assert Wrapped(lead, q) == Some([x] + restA) && Selectors(lead + [Of(rows)], p) == Some([y] + restB);
    ConsSelected(q, x, restA);
    ConsSelected(p, y, restB);
    StretchesCons(q[0], lead[0].s.Length(p[0]), SelectedShape(q[1..], restA), SelectedShape(p[1..], restB));
    if KeepsAxes(lead, q, p) {
      WholeAxisFits(q, p[0], y, restA, restB);
    }
  }

  lemma WholeAxisFits(q: Shape, n: nat, y: Selector, restA: seq<Selector>, restB: seq<Selector>)
    requires q != [] && (q[0] == 1 || q[0] == n) && y.Span? && y.lo <= y.hi <= n && |restA| <= |q| - 1
    requires (q[0] == 1 || y.hi - y.lo == n) && Fits(q[1..], restA, restB)
    ensures Fits(q, [Span(0, q[0])] + restA, [y] + restB)
  {
    var inA, inB := [Span(0, q[0])] + restA, [y] + restB;
    assert inA[1..] == restA && inB[1..] == restB;
    assert AxisFits(q[0], inA[0], inB[0]);
  }

  lemma ConsSelected(shape: Shape, s: Selector, rest: seq<Selector>)
    requires shape != [] && s.Span? && s.lo <= s.hi <= shape[0] && Selects(shape[1..], rest)
    ensures Selects(shape, [s] + rest) && SelectedShape(shape, [s] + rest) == [s.hi - s.lo] + SelectedShape(shape[1..], rest)
  {
    assert ([s] + rest)[1..] == rest;
  }

  lemma StretchesCons(m: nat, n: nat, q: Shape, p: Shape)
    requires p != []
    ensures Stretches([m] + q, [n] + p) <==> (m == 1 || m == n) && Stretches(q, p)
  {
    assert ([m] + q)[1..] == q && ([n] + p)[1..] == p;
  }

  lemma WrapsAlike(i: int, m: nat, n: nat)
    requires (m == 1 || m == n) && Normal(i, n).Some?
    ensures m > 0 && i % m == if m == 1 then 0 else Normal(i, n).value
  {
    if m != 1 && i < 0 {
      assert i == (-1) * m + (i + m);
    }
  }

  /** The columns `left` to `right` of the product. */
  function CutRows(t: Tensor<Row>, width: nat, left: nat, right: nat): (u: Tensor<Row>)
    requires t.Whole() && left <= right <= width && forall idx :: InBounds(t.shape, idx) ==> |t.At(idx)| == width
    ensures u.Whole() && u.shape == t.shape
    ensures forall idx :: InBounds(t.shape, idx) ==> u.At(idx) == t.At(idx)[left..right]
  {
    Build(t.shape, idx requires InBounds(t.shape, idx) && |t.At(idx)| == width => t.At(idx)[left..right])
  }

  /** A tuple in range works exactly if it keeps every leading axis that `a` shares. */
  lemma TupleMeans(l: Lora, lead: seq<Position>, rows: Slice, columns: Slice)
    requires l.Valid()
    ensures l.GetTuple(lead, rows, columns).Some? <==>
      |lead| == |l.a.shape| && Selectors(lead + [Of(rows)], l.b.shape).Some?
    ensures l.GetTuple(lead, rows, columns).Some? ==>
      var r := l.GetTuple(lead, rows, columns).value;
      var (left, right) := columns.Bounds(l.width);
      var selected := Selected(l.Meaning(), Selectors(lead + [Of(rows)], l.b.shape).value);
      && (r.Valid() <==> KeepsAxes(lead, l.a.shape, l.b.shape))
      && (r.Valid() ==> r.Meaning() == CutRows(selected, l.width, left, right))
  {
    if |lead| == |l.a.shape| && Selectors(lead + [Of(rows)], l.b.shape).Some? {
      TupleFits(lead, rows, l.a.shape, l.b.shape);
      var inA, inB := Wrapped(lead, l.a.shape).value, Selectors(lead + [Of(rows)], l.b.shape).value;
      var (left, right) := columns.Bounds(l.width);
      GetTupleIs(l, lead, rows, columns);
      if KeepsAxes(lead, l.a.shape, l.b.shape) {
        SelectedAndCut(l, inA, inB, left, right);
      }
    }
  }

  lemma SelectedAndCut(l: Lora, inA: seq<Selector>, inB: seq<Selector>, left: nat, right: nat)
    requires l.Valid() && Selects(l.a.shape, inA) && Selects(l.b.shape, inB) && |inA| <= |l.a.shape|
    requires Fits(l.a.shape, inA, inB) && left <= right <= l.width
    requires |SelectedShape(l.b.shape, inB)| == |SelectedShape(l.a.shape, inA)| + 1
    ensures var r := l.SelectCut(inA, inB, left, right);
      r.Valid() && r.Meaning() == CutRows(Selected(l.Meaning(), inB), l.width, left, right)
  {
    SelectionMeans(l, inA, inB);
    CutMeans(Lora(Selected(l.a, inA), Selected(l.b, inB), l.rank, l.width), left, right);
  }

  lemma GetTupleIs(l: Lora, lead: seq<Position>, rows: Slice, columns: Slice)
    requires l.Made() && |lead| == |l.a.shape|
    requires Selectors(lead + [Of(rows)], l.b.shape).Some? && Wrapped(lead, l.a.shape).Some?
    ensures var inA, inB := Wrapped(lead, l.a.shape).value, Selectors(lead + [Of(rows)], l.b.shape).value;
      var (left, right) := columns.Bounds(l.width);
      && |SelectedShape(l.b.shape, inB)| == |SelectedShape(l.a.shape, inA)| + 1
      && l.GetTuple(lead, rows, columns) == Some(l.SelectCut(inA, inB, left, right))
  {
    TupleShapes(lead, rows, l.a.shape, l.b.shape);
  }

  /** Cutting columns of `a` cuts columns of the product. */
  lemma CutMeans(l: Lora, left: nat, right: nat)
    requires l.Valid() && left <= right <= l.width
    ensures var r := Lora(EachCut(l.a, l.rank, l.width, left, right), l.b, l.rank, right - left);
      r.Valid() && r.Meaning() == CutRows(l.Meaning(), l.width, left, right)
  {
    var r := Lora(EachCut(l.a, l.rank, l.width, left, right), l.b, l.rank, right - left);
    assert r.Made();
    forall idx | InBounds(l.b.shape, idx)
      ensures r.RowAt(idx) == l.RowAt(idx)[left..right]
    {
      CoverFits(l.a.shape, l.b.shape, idx);
      CombineColumns(l.b.At(idx), l.a.At(Cover(l.a.shape, idx)), l.rank, l.width, left, right);
    }
    SameTensor(r.Meaning(), CutRows(l.Meaning(), l.width, left, right));
  }

  lemma CombineColumns(v: Row, m: Matrix, rank: nat, width: nat, left: nat, right: nat)
    requires |v| == rank && Sized(m, rank, width) && left <= right <= width
    ensures Combine(v, Columns(m, rank, width, left, right), rank, right - left) == Combine(v, m, rank, width)[left..right]
  {
    forall j | 0 <= j < right - left
      ensures Dot(v, Columns(m, rank, width, left, right), j, rank) == Dot(v, m, left + j, rank)
    {
      DotColumns(v, m, rank, width, left, right, j, rank);
    }
  }

  lemma {:induction false} DotColumns(v: Row, m: Matrix, rank: nat, width: nat, left: nat, right: nat, j: nat, n: nat)
    requires left + j < right <= width && n <= |v| && n <= rank && Sized(m, rank, width)
    ensures Dot(v, Columns(m, rank, width, left, right), j, n) == Dot(v, m, left + j, n)
    decreases n
  {
    if n > 0 {
      DotColumns(v, m, rank, width, left, right, j, n - 1);
    }
  }
}
