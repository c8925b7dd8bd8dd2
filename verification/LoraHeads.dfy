/** The head permutation of attention weights, on pairs and on what they stand for. */
module LoraHeads {
  import opened Wrappers
  import opened Tensors
  import opened LoraTensors
  import opened LoraShapes

  /** The axes with the two middle ones exchanged. */
  function MiddleSwapped(n: nat): (perm: seq<nat>)
    requires n > 2
    ensures |perm| == n && IsPermutation(perm)
    ensures forall d :: 0 <= d < n ==> perm[d] == if d == 1 then 2 else if d == 2 then 1 else d
  {
    seq(n, d => if d == 1 then 2 else if d == 2 then 1 else d)
  }

  /** Reshaping the first axis to heads of two halves, swapping the middle axes and reshaping back. */
  function Heads<T>(t: Tensor<T>, nHead: nat): (r: Option<Tensor<T>>)
    requires t.Whole() && t.shape != []
    ensures r.Some? ==> r.value.Whole() && r.value.shape == t.shape
  {
    if nHead == 0 then None
    else
      var heads :- Reshaped(t, [nHead, 2, t.shape[0] / nHead / 2] + t.shape[1..]);
      Reshaped(Permuted(heads, MiddleSwapped(|heads.shape|)), t.shape)
  }

  lemma SizeOfSwapped(s: Shape)
    requires |s| > 2
    ensures Size(PermutedShape(s, MiddleSwapped(|s|))) == Size(s)
  {
    var rest := s[3..];
    SwappedShape(s[0], s[1], s[2], rest);
    assert s == [s[0], s[1], s[2]] + rest;
    SizeConcat([s[0], s[1], s[2]], rest);
    SizeConcat([s[0], s[2], s[1]], rest);
    SizeOfThree(s[0], s[1], s[2]);
    SizeOfThree(s[0], s[2], s[1]);
  }

  lemma SwappedShape(a: nat, b: nat, c: nat, rest: Shape)
    ensures var s := [a, b, c] + rest; |s| > 2 && PermutedShape(s, MiddleSwapped(|s|)) == [a, c, b] + rest
  {
  }

  lemma SizeOfThree(a: nat, b: nat, c: nat)
    ensures Size([a, b, c]) == a * (b * c) && a * (b * c) == a * (c * b)
  {
    assert [a, b, c][1..] == [b, c] && [b, c][1..] == [c] && [c][1..] == [];
    assert Size([c]) == c && Size([b, c]) == b * c;
  }

  /** Permuting the pair permutes the product, wherever the product can be permuted and `a` is one matrix. */
  lemma HeadsMean(l: Lora, nHead: nat)
    requires l.Valid()
    ensures l.PermuteHeads(nHead).Some? <==>
      Heads(l.Meaning(), nHead).Some? && (Size(l.a.shape) == 1 || l.width == 0)
    ensures l.PermuteHeads(nHead).Some? ==>
      l.PermuteHeads(nHead).value.Valid() && Heads(l.Meaning(), nHead) == Some(l.PermuteHeads(nHead).value.Meaning())
  {
    if nHead > 0 {
      var first := [nHead, 2, l.Shape()[0] / nHead / 2];
      var dims := first + l.Shape()[1..];
      ReshapeExact(l, dims);
      assert Lengths(dims[..|dims| - 1]) == first + l.b.shape[1..];
      if l.Reshape(dims).Some? {
        ReshapeMeans(l, dims);
        HeadsSwapped(l.Reshape(dims).value, l);
      }
    }
  }

  /** The heads of one matrix swap and reshape back. */
  lemma HeadsSwapped(heads: Lora, l: Lora)
    requires l.Made() && heads.Valid() && AllOnes(heads.a.shape) && |heads.b.shape| > 2
    requires Size(heads.b.shape) == Size(l.b.shape) && heads.width == l.width
    ensures heads.SwapAxes(1, 2).Some? && heads.SwapAxes(1, 2).value.Reshape(l.Shape()).Some?
    ensures var r := heads.SwapAxes(1, 2).value.Reshape(l.Shape()).value;
      r.Valid() && r.b.shape == l.b.shape &&
      Reshaped(Permuted(heads.Meaning(), MiddleSwapped(|heads.b.shape|)), l.b.shape) == Some(r.Meaning())
  {
    var n := |heads.Shape()|;
    var dims: seq<int> := MiddleSwapped(n);
    assert heads.SwapAxes(1, 2) == heads.Permute(dims);
    assert Axes(dims, n) == dims;
    PermuteMeans(heads, dims);
    assert RowAxes(dims, n) == MiddleSwapped(n - 1);
    var swapped := heads.SwapAxes(1, 2).value;
    SizeOfSwapped(heads.b.shape);
    SizeOfOnes(swapped.a.shape);
    ReshapeExact(swapped, l.Shape());
    assert Lengths(l.Shape()[..|l.Shape()| - 1]) == l.b.shape;
    ReshapeMeans(swapped, l.Shape());
  }

  // ----- where each row goes

  /** Row `j` of a half of a head lands at position `2 * j + half` of the head. */
  lemma HeadsAt<T>(t: Tensor<T>, nHead: nat, h: nat, tail: Shape, x: nat, half: nat, j: nat, rest: seq<nat>, source: nat, target: nat)
    requires t.Whole() && t.shape == [nHead * (2 * h)] + tail && x < nHead && half < 2 && j < h && InBounds(tail, rest)
    requires source == x * (2 * h) + (if half == 0 then j else h + j) && target == x * (2 * h) + (2 * j + half)
    ensures InBounds(t.shape, [source] + rest) && InBounds(t.shape, [target] + rest)
    ensures Heads(t, nHead).Some? && Heads(t, nHead).value.At([target] + rest) == t.At([source] + rest)
  {
    HeadsAre(t, nHead, h, tail);
    var heads := Tensor([nHead, 2, h] + tail, t.data);
    var swapped := Permuted(heads, MiddleSwapped(|heads.shape|));
    HeadPosition(nHead, 2, h, tail, x, half, j, rest, source);
    TwiceAs(h, nHead, x);
    HeadPosition(nHead, h, 2, tail, x, j, half, rest, target);
    SwappedShape(nHead, 2, h, tail);
    SwappedAt(heads, [x, j, half] + rest, [x, half, j] + rest);
  }

  lemma TwiceAs(h: nat, n: nat, x: nat)
    ensures 2 * h == h * 2 && n * (2 * h) == n * (h * 2) && x * (2 * h) == x * (h * 2)
  {
  }

  /** The shape a row count divides into. */
  lemma HeadsAre<T>(t: Tensor<T>, nHead: nat, h: nat, tail: Shape)
    requires t.Whole() && t.shape == [nHead * (2 * h)] + tail && nHead > 0
    ensures Size([nHead, 2, h] + tail) == Size(t.shape) && Size([nHead, h, 2] + tail) == Size(t.shape)
    ensures t.shape[0] / nHead / 2 == h && t.shape[1..] == tail
    ensures var heads := Tensor([nHead, 2, h] + tail, t.data);
      Heads(t, nHead) == Some(Tensor(t.shape, Permuted(heads, MiddleSwapped(|heads.shape|)).data))
  {
    var heads := Tensor([nHead, 2, h] + tail, t.data);
    SizeConcat([nHead, 2, h], tail);
    SizeOfThree(nHead, 2, h);
    assert Size(t.shape) == nHead * (2 * h) * Size(tail);
    SizeOfSwapped(heads.shape);
    SwappedShape(nHead, 2, h, tail);
    Quotient(nHead, 2 * h);
  }

  lemma Quotient(n: nat, k: nat)
    requires n > 0
    ensures n * k / n == k
  {
    var m := n * k;
    OneSplit(m / n, m % n, k, 0, n);
  }

  lemma SwappedAt<T>(t: Tensor<T>, idx: seq<nat>, src: seq<nat>)
    requires t.Whole() && |t.shape| > 2 && InBounds(PermutedShape(t.shape, MiddleSwapped(|t.shape|)), idx)
    requires src == [idx[0], idx[2], idx[1]] + idx[3..]
    ensures InBounds(t.shape, src) && Permuted(t, MiddleSwapped(|t.shape|)).At(idx) == t.At(src)
  {
    var perm := MiddleSwapped(|t.shape|);
    forall d | 0 <= d < |t.shape|
      ensures PlaceOf(perm, d) == perm[d]
    {
      MiddlePlace(|t.shape|, d);
    }
    assert Unpermuted(t.shape, perm, idx) == src;
  }

  lemma MiddlePlace(n: nat, d: nat)
    requires n > 2 && d < n
    ensures PlaceOf(MiddleSwapped(n), d) == MiddleSwapped(n)[d]
  {
    var perm := MiddleSwapped(n);
    assert perm[perm[d]] == d;
  }

  /** Where any row can be named, the row count divides. */
  lemma RowsDivide<T>(t: Tensor<T>, nHead: nat, idx: seq<nat>)
    requires t.Whole() && t.shape != [] && Heads(t, nHead).Some? && InBounds(t.shape, idx)
    ensures t.shape[0] == nHead * (2 * (t.shape[0] / nHead / 2))
  {
    var tail, h := t.shape[1..], t.shape[0] / nHead / 2;
    var bound := Offset(tail, idx[1..]);
    SizeConcat([nHead, 2, h], tail);
    SizeOfThree(nHead, 2, h);
    Cancels(nHead * (2 * h), t.shape[0], Size(tail));
  }

  lemma Cancels(i: nat, j: nat, k: nat)
    requires k > 0 && i * k == j * k
    ensures i == j
  {
    if i < j {
      Later(i, j, k);
    } else if j < i {
      Later(j, i, k);
    }
  }

  /** The three leading axes of a head tensor as one. */
  lemma HeadPosition(a: nat, b: nat, c: nat, tail: Shape, x: nat, y: nat, z: nat, rest: seq<nat>, at: nat)
    requires x < a && y < b && z < c && InBounds(tail, rest)
    requires at == x * (b * c) + (y * c + z)
    ensures InBounds([a, b, c] + tail, [x, y, z] + rest) && InBounds([a * (b * c)] + tail, [at] + rest)
    ensures Offset([a, b, c] + tail, [x, y, z] + rest) == Offset([a * (b * c)] + tail, [at] + rest)
  {
    OffsetOfThree(a, b, c, x, y, z);
    OffsetOfOne(a * (b * c), at);
    OffsetConcat([a, b, c], tail, [x, y, z], rest);
    OffsetConcat([a * (b * c)], tail, [at], rest);
  }

  lemma OffsetOfThree(a: nat, b: nat, c: nat, x: nat, y: nat, z: nat)
    requires x < a && y < b && z < c
    ensures InBounds([a, b, c], [x, y, z]) && Offset([a, b, c], [x, y, z]) == x * (b * c) + (y * c + z) < a * (b * c)
  {
    Inside(y, b, z, c);
    Inside(x, a, y * c + z, b * c);
    assert [a, b, c][1..] == [b, c] && [x, y, z][1..] == [y, z];
    OffsetOfTwo(b, c, y, z);
  }

  lemma OffsetOfTwo(b: nat, c: nat, y: nat, z: nat)
    requires y < b && z < c
    ensures InBounds([b, c], [y, z]) && Offset([b, c], [y, z]) == y * c + z && Size([b, c]) == b * c
  {
    assert [b, c][1..] == [c] && [y, z][1..] == [z];
    OffsetOfOne(c, z);
    assert Size([c]) == c;
  }

  lemma OffsetOfOne(n: nat, m: nat)
    requires m < n
    ensures InBounds([n], [m]) && Offset([n], [m]) == m
  {
    assert [n][1..] == [] && [m][1..] == [];
  }

  // ----- no row is lost

  /** The heads the other way round: two halves from each pair of neighbours. */
  function Unheads<T>(t: Tensor<T>, nHead: nat): Option<Tensor<T>>
    requires t.Whole() && t.shape != []
  {
    if nHead == 0 then None
    else
      var heads :- Reshaped(t, [nHead, t.shape[0] / nHead / 2, 2] + t.shape[1..]);
      Reshaped(Permuted(heads, MiddleSwapped(|heads.shape|)), t.shape)
  }

  lemma SwappedTwice<T>(t: Tensor<T>)
    requires t.Whole() && |t.shape| > 2
    ensures var perm := MiddleSwapped(|t.shape|); Permuted(Permuted(t, perm), perm) == t
  {
    var perm := MiddleSwapped(|t.shape|);
    var v := Permuted(Permuted(t, perm), perm);
    assert v.shape == t.shape;
    forall idx | InBounds(t.shape, idx)
      ensures v.At(idx) == t.At(idx)
    {
      SwappedTwiceAt(t, idx, [idx[0], idx[2], idx[1]] + idx[3..]);
    }
    SameTensor(v, t);
  }

  lemma SwappedTwiceAt<T>(t: Tensor<T>, idx: seq<nat>, once: seq<nat>)
    requires t.Whole() && |t.shape| > 2 && InBounds(t.shape, idx) && once == [idx[0], idx[2], idx[1]] + idx[3..]
    ensures var perm := MiddleSwapped(|t.shape|);
      var v := Permuted(Permuted(t, perm), perm);
      InBounds(v.shape, idx) && v.At(idx) == t.At(idx)
  {
    var u := Permuted(t, MiddleSwapped(|t.shape|));
    SwappedAt(u, idx, once);
    SwappedAt(t, once, idx);
  }

  /** The row map is a bijection: it can be undone. */
  lemma HeadsInvert<T>(t: Tensor<T>, nHead: nat)
    requires t.Whole() && t.shape != [] && Heads(t, nHead).Some?
    ensures Unheads(Heads(t, nHead).value, nHead) == Some(t)
  {
    var h := t.shape[0] / nHead / 2;
    var heads := Tensor([nHead, 2, h] + t.shape[1..], t.data);
    var perm := MiddleSwapped(|heads.shape|);
    SwappedTwice(heads);
    SizeOfSwapped(heads.shape);
    assert Permuted(heads, perm).shape == [nHead, h, 2] + t.shape[1..];
  }
}
