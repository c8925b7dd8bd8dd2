/** The inference graph: batches pushed through the layers against the K/V cache. */
module KvCache {
  import opened Wrappers
  import opened Transformer

  datatype ForwardError = EmptyTokens | Overflow(needed: nat, max: nat)

  /** The rows of `xs` whose mask entry is open. */
  function Visible<T>(xs: seq<T>, open: seq<bool>): (r: seq<T>)
    requires |xs| == |open|
  {
    if xs == [] then []
    else Visible(xs[..|xs| - 1], open[..|xs| - 1]) + if open[|xs| - 1] then [xs[|xs| - 1]] else []
  }

  /** Under a causal row of the mask, what is visible is a prefix. */
  lemma {:induction false} VisiblePrefix<T>(xs: seq<T>, open: seq<bool>, n: nat)
    requires |xs| == |open| && n <= |xs|
    requires forall j :: 0 <= j < |open| ==> (open[j] <==> j < n)
    ensures Visible(xs, open) == xs[..n]
    decreases |xs|
  {
    if xs != [] {
      var k := |xs| - 1;
      if n == |xs| {
        VisiblePrefix(xs[..k], open[..k], k);
        assert xs[..n] == xs[..k][..k] + [xs[k]];
      } else {
        VisiblePrefix(xs[..k], open[..k], n);
        assert xs[..n] == xs[..k][..n];
      }
    }
  }

  /** A batch's rows are those of the whole transcript from the batch's position on. */
  lemma BatchRows<H, Q, K, V, A>(layer: Layer<H, Q, K, V, A>, xs: seq<H>, head: nat)
    requires head <= |xs|
    ensures KeyRows(layer, xs[head..], head) == KeyRows(layer, xs, 0)[head..]
    ensures ValueRows(layer, xs[head..]) == ValueRows(layer, xs)[head..]
  {
  }

  /** Query `i` of a batch that starts at `head` sees the rows up to its own. */
  ghost predicate Causal(mask: array2<bool>, head: nat)
    reads mask
  {
    forall i, j :: 0 <= i < mask.Length0 && 0 <= j < mask.Length1 ==> (mask[i, j] <==> j <= head + i)
  }

  class LlamaGraph<H, Q, K(0), V(0), A, L> {
    const model: Model<H, Q, K, V, A, L>
    const nCtx: nat
    const k: array2<K>
    const v: array2<V>
    var head: nat
    /** The tokens whose rows the cache holds. */
    ghost var transcript: seq<int>

    ghost predicate HoldsRows(l: nat, ks: seq<K>, vs: seq<V>, n: nat)
      requires l < |model.layers| && n <= |ks| == |vs|
      reads k, v
    {
      && |model.layers| == k.Length0 == v.Length0 && n <= k.Length1 && n <= v.Length1
      && forall j :: 0 <= j < n ==> k[l, j] == ks[j] && v[l, j] == vs[j]
    }

    /** The first `n` rows of layer `l` hold what the transcript asks for. */
    ghost predicate Holds(l: nat, tokens: seq<int>, n: nat)
      requires l < |model.layers| && n <= |tokens|
      reads k, v
    {
      HoldsRows(l, Keys(model, l, tokens), Values(model, l, tokens), n)
    }

    /** Two separate buffers of the right shape. */
    predicate Shaped() {
      && k.Length0 == v.Length0 == |model.layers|
      && k.Length1 == v.Length1 == nCtx
      && k as object != v as object
    }

    /** Nothing is said about the rows from `head` on: `Clear` leaves them stale. */
    ghost predicate Valid()
      reads this, k, v
    {
      && Shaped()
      && head == |transcript| <= nCtx
      && forall l :: 0 <= l < |model.layers| ==> Holds(l, transcript, head)
    }

    /** The rows below the head are the keys and values of that computation. */
    ghost predicate HoldsComputation(xs: seq<seq<H>>)
      requires Shaped() && head <= nCtx
      reads this, k, v
    {
      && IsComputation(model, transcript, xs) && head == |transcript|
      && forall l, j :: 0 <= l < |model.layers| && 0 <= j < head ==>
           k[l, j] == model.layers[l].key(xs[l][j], j) && v[l, j] == model.layers[l].value(xs[l][j])
    }

    lemma CacheIsComputation()
      requires Valid()
      ensures HoldsComputation(AllRows(model, transcript))
    {
      RowsCompute(model, transcript);
      forall l, j | 0 <= l < |model.layers| && 0 <= j < head
        ensures k[l, j] == model.layers[l].key(AllRows(model, transcript)[l][j], j)
        ensures v[l, j] == model.layers[l].value(AllRows(model, transcript)[l][j])
      {
        assert Holds(l, transcript, head);
      }
    }

    constructor (model: Model<H, Q, K, V, A, L>, nCtx: nat, zeroK: K, zeroV: V)
      ensures Valid() && fresh(k) && fresh(v)
      ensures this.model == model && this.nCtx == nCtx && transcript == []
    {
      this.model, this.nCtx := model, nCtx;
      k := new K[|model.layers|, nCtx]((i, j) => zeroK);
      v := new V[|model.layers|, nCtx]((i, j) => zeroV);
      head, transcript := 0, [];
    }

    /** Only the head moves; the rows stay where they are. */
    method ResetKv()
      requires Valid()
      modifies this`head, this`transcript
      ensures Valid() && transcript == []
    {
      head, transcript := 0, [];
    }

    /** The causal mask of a batch: query `i` sees keys `0` to `kvHead + i`. */
    method BuildMask(kvHead: nat, nTokens: nat) returns (mask: array2<bool>)
      ensures fresh(mask) && mask.Length0 == nTokens && mask.Length1 == kvHead + nTokens
      ensures Causal(mask, kvHead)
    {
      var kvLen := kvHead + nTokens;
      mask := new bool[nTokens, kvLen]((i, j) => true);
      for i := 0 to nTokens
        invariant forall a, j :: 0 <= a < nTokens && 0 <= j < kvLen ==> (mask[a, j] <==> a >= i || j <= kvHead + a)
      {
        for j := kvHead + i + 1 to kvLen
          invariant forall a, b :: 0 <= a < nTokens && 0 <= b < kvLen ==>
            (mask[a, b] <==> (if a == i then b <= kvHead + i || b >= j else a > i || b <= kvHead + a))
        {
          mask[i, j] := false;
        }
      }
    }

    /** Copy the batch's rows into `[head, head + n)` of one layer. */
    method WriteRows(l: nat, ks: seq<K>, vs: seq<V>)
      requires Shaped()
      requires l < |model.layers| && |ks| == |vs| && head + |ks| <= nCtx
      modifies k, v
      ensures forall j :: 0 <= j < |ks| ==> k[l, head + j] == ks[j] && v[l, head + j] == vs[j]
      ensures forall a, j :: 0 <= a < k.Length0 && 0 <= j < nCtx && (a != l || j < head || j >= head + |ks|) ==>
        k[a, j] == old(k[a, j]) && v[a, j] == old(v[a, j])
    {
      for i := 0 to |ks|
        invariant forall j :: 0 <= j < i ==> k[l, head + j] == ks[j] && v[l, head + j] == vs[j]
        invariant forall a, j :: 0 <= a < k.Length0 && 0 <= j < nCtx && (a != l || j < head || j >= head + i) ==>
          k[a, j] == old(k[a, j]) && v[a, j] == old(v[a, j])
      {
        k[l, head + i] := ks[i];
        v[l, head + i] := vs[i];
      }
    }

    /** During a batch: the layers below `l` are complete, the others as before it. */
    ghost predicate LayersHold(l: nat, all: seq<int>)
      requires l <= |model.layers| && head <= |all|
      reads this, k, v
    {
      && (forall a :: 0 <= a < l ==> Holds(a, all, |all|))
      && (forall a :: l <= a < |model.layers| ==> Holds(a, all, head))
    }

    lemma HoldsLonger(l: nat, all: seq<int>)
      requires l < |model.layers| && head == |transcript| <= |all| && all[..head] == transcript
      requires Holds(l, transcript, head)
      ensures Holds(l, all, head)
    {
      CachePrefix(model, l, all, head);
      assert forall j :: 0 <= j < head ==> Keys(model, l, all)[j] == Keys(model, l, all)[..head][j];
      assert forall j :: 0 <= j < head ==> Values(model, l, all)[j] == Values(model, l, all)[..head][j];
    }

    /** Writing the missing rows `[head, |ks|)` of one layer completes it. */
    method WriteTail(l: nat, newKs: seq<K>, newVs: seq<V>, ghost ks: seq<K>, ghost vs: seq<V>)
      requires Shaped() && l < |model.layers| && head <= |ks| == |vs| <= nCtx
      requires newKs == ks[head..] && newVs == vs[head..] && HoldsRows(l, ks, vs, head)
      modifies k, v
      ensures HoldsRows(l, ks, vs, |ks|)
      ensures forall a, j :: 0 <= a < k.Length0 && 0 <= j < nCtx && a != l ==> k[a, j] == old(k[a, j]) && v[a, j] == old(v[a, j])
    {
      WriteRows(l, newKs, newVs);
      forall j | 0 <= j < |ks|
        ensures k[l, j] == ks[j] && v[l, j] == vs[j]
      {
        if j >= head {
          assert k[l, head + (j - head)] == newKs[j - head] && v[l, head + (j - head)] == newVs[j - head];
        }
      }
    }

    /** The batch's keys and values complete the cache of layer `l`. */
    method WriteOwn(l: nat, cur: seq<H>, ghost all: seq<int>)
      requires Shaped() && l < |model.layers| && head + |cur| == |all| <= nCtx
      requires cur == Rows(model, l, all)[head..] && Holds(l, all, head)
      modifies k, v
      ensures Holds(l, all, |all|)
      ensures forall a, j :: 0 <= a < k.Length0 && 0 <= j < nCtx && a != l ==> k[a, j] == old(k[a, j]) && v[a, j] == old(v[a, j])
    {
      var ks, vs := KeyRows(model.layers[l], cur, head), ValueRows(model.layers[l], cur);
      BatchRows(model.layers[l], Rows(model, l, all), head);
      WriteTail(l, ks, vs, Keys(model, l, all), Values(model, l, all));
    }

    /** The other layers are not touched. */
    method WriteLayer(l: nat, cur: seq<H>, ghost all: seq<int>)
      requires Shaped() && l < |model.layers| && head + |cur| == |all| <= nCtx
      requires cur == Rows(model, l, all)[head..] && LayersHold(l, all)
      modifies k, v
      ensures LayersHold(l + 1, all)
    {
      assert Holds(l, all, head);
      WriteOwn(l, cur, all);
      forall a | 0 <= a < l
        ensures Holds(a, all, |all|)
      {
        assert old(Holds(a, all, |all|));
      }
      forall a | l < a < |model.layers|
        ensures Holds(a, all, head)
      {
        assert old(Holds(a, all, head));
      }
    }

    /** The key and value rows `[0, kvLen)` of a complete layer. */
    method ReadRows(l: nat, kvLen: nat, ghost all: seq<int>) returns (ks: seq<K>, vs: seq<V>)
      requires Shaped() && l < |model.layers| && kvLen == |all| <= nCtx && Holds(l, all, |all|)
      ensures ks == Keys(model, l, all) && vs == Values(model, l, all)
    {
      ks := seq(kvLen, j requires 0 <= j < kvLen reads k => k[l, j]);
      vs := seq(kvLen, j requires 0 <= j < kvLen reads v => v[l, j]);
    }

    /** Row `i` of the batch attends to what its row of the mask leaves open. */
    method AttendRow(l: nat, x: H, i: nat, ks: seq<K>, vs: seq<V>, mask: array2<bool>, ghost all: seq<int>) returns (y: H)
      requires l < |model.layers| && ks == Keys(model, l, all) && vs == Values(model, l, all)
      requires i < mask.Length0 && mask.Length1 == |all| && head + i < |all| && x == Rows(model, l, all)[head + i]
      requires forall j :: 0 <= j < |all| ==> (mask[i, j] <==> j <= head + i)
      ensures y == Rows(model, l + 1, all)[head + i]
    {
      var kvLen := |ks|;
      var open := seq(kvLen, j requires 0 <= j < kvLen reads mask => mask[i, j]);
      VisiblePrefix(ks, open, head + i + 1);
      VisiblePrefix(vs, open, head + i + 1);
      y := Output(model.layers[l], x, head + i, Visible(ks, open), Visible(vs, open));
      RowIsOutput(model, l, all, head + i);
    }

    method AttendRows(l: nat, cur: seq<H>, ks: seq<K>, vs: seq<V>, mask: array2<bool>, ghost all: seq<int>) returns (next: seq<H>)
      requires l < |model.layers| && ks == Keys(model, l, all) && vs == Values(model, l, all)
      requires head + |cur| == |all| && cur == Rows(model, l, all)[head..]
      requires mask.Length0 == |cur| && mask.Length1 == |all| && Causal(mask, head)
      ensures next == Rows(model, l + 1, all)[head..]
    {
      next := [];
      for i := 0 to |cur|
        invariant next == Rows(model, l + 1, all)[head..head + i]
      {
        var y := AttendRow(l, cur[i], i, ks, vs, mask, all);
        next := next + [y];
      }
    }

    /** One layer of a batch: write its rows, read back `[0, kvLen)`, attend under the mask. */
    method ForwardLayer(l: nat, cur: seq<H>, mask: array2<bool>, ghost all: seq<int>) returns (next: seq<H>)
      requires Shaped() && l < |model.layers| && head + |cur| == |all| <= nCtx
      requires cur == Rows(model, l, all)[head..] && LayersHold(l, all)
      requires mask.Length0 == |cur| && mask.Length1 == |all|
      requires mask as object != k as object && mask as object != v as object
      requires Causal(mask, head)
      modifies k, v
      ensures LayersHold(l + 1, all)
      ensures next == Rows(model, l + 1, all)[head..]
    {
      WriteLayer(l, cur, all);
      assert Holds(l, all, |all|);
      var ks, vs := ReadRows(l, head + |cur|, all);
      next := AttendRows(l, cur, ks, vs, mask, all);
    }

    lemma LayersReady(all: seq<int>)
      requires Valid() && head <= |all| && all[..head] == transcript
      ensures LayersHold(0, all)
    {
      forall l | 0 <= l < |model.layers|
        ensures Holds(l, all, head)
      {
        assert Holds(l, transcript, head);
        HoldsLonger(l, all);
      }
    }

    /** All layers of a batch, in order. */
    method ForwardLayers(embedded: seq<H>, mask: array2<bool>, ghost all: seq<int>) returns (cur: seq<H>)
      requires Shaped() && head + |embedded| == |all| <= nCtx
      requires embedded == Rows(model, 0, all)[head..] && LayersHold(0, all)
      requires mask.Length0 == |embedded| && mask.Length1 == |all|
      requires mask as object != k as object && mask as object != v as object
      requires Causal(mask, head)
      modifies k, v
      ensures LayersHold(|model.layers|, all)
      ensures cur == Rows(model, |model.layers|, all)[head..]
    {
      cur := embedded;
      for l := 0 to |model.layers|
        invariant |cur| == |embedded| && Causal(mask, head)
        invariant cur == Rows(model, l, all)[head..]
        invariant LayersHold(l, all)
      {
        cur := ForwardLayer(l, cur, mask, all);
      }
    }

    /** The rows are in place; the head moves past them. */
    method Advance(kvLen: nat, ghost all: seq<int>)
      requires Shaped() && head <= |all| == kvLen <= nCtx && LayersHold(|model.layers|, all)
      modifies this`head, this`transcript
      ensures Valid() && transcript == all
    {
      head := if kvLen < nCtx then kvLen else nCtx;
      transcript := all;
      assert forall l :: 0 <= l < |model.layers| ==> Holds(l, transcript, head);
    }

    /** Append a batch to the transcript, or refuse it when it does not fit. */
    method Forward(tokens: seq<int>, pos: nat) returns (r: Result<L, ForwardError>)
      requires Valid() && tokens != [] && pos == head
      modifies this`head, this`transcript, k, v
      ensures Valid()
      ensures r.Success? <==> old(head) + |tokens| <= nCtx
      ensures r.Success? ==> transcript == old(transcript) + tokens && r.value == Logits(model, transcript)
      ensures HoldsComputation(AllRows(model, transcript))
      ensures r.Success? ==> Says(model, transcript, AllRows(model, transcript), r.value)
      ensures r.Failure? ==> transcript == old(transcript) && r.error == Overflow(head + |tokens|, nCtx)
    {
      var mask := BuildMask(head, |tokens|);
      var cur := seq(|tokens|, i requires 0 <= i < |tokens| => model.embed(tokens[i]));
      var kvLen := head + |tokens|;
      if kvLen > nCtx {
        CacheIsComputation();
        return Failure(Overflow(kvLen, nCtx));
      }
      ghost var all := transcript + tokens;
      assert all[..head] == transcript;
      assert cur == Rows(model, 0, all)[head..];
      LayersReady(all);
      cur := ForwardLayers(cur, mask, all);
      r := Success(model.logits(cur[|tokens| - 1]));
      Advance(kvLen, all);
      CacheIsComputation();
      LogitsAreSaid(model, transcript);
    }

    method Prefill(tokenIds: seq<int>) returns (r: Result<L, ForwardError>)
      requires Valid()
      modifies this`head, this`transcript, k, v
      ensures Valid()
      ensures r.Success? <==> tokenIds != [] && old(head) + |tokenIds| <= nCtx
      ensures r.Success? ==> transcript == old(transcript) + tokenIds && r.value == Logits(model, transcript)
      ensures HoldsComputation(AllRows(model, transcript))
      ensures r.Success? ==> Says(model, transcript, AllRows(model, transcript), r.value)
      ensures r.Failure? ==> transcript == old(transcript)
    {
      if tokenIds == [] {
        CacheIsComputation();
        return Failure(EmptyTokens);
      }
      r := Forward(tokenIds, head);
    }

    method DecodeOne(tokenId: int) returns (r: Result<L, ForwardError>)
      requires Valid()
      modifies this`head, this`transcript, k, v
      ensures Valid()
      ensures r.Success? <==> old(head) < nCtx
      ensures r.Success? ==> transcript == old(transcript) + [tokenId] && r.value == Logits(model, transcript)
      ensures HoldsComputation(AllRows(model, transcript))
      ensures r.Success? ==> Says(model, transcript, AllRows(model, transcript), r.value)
      ensures r.Failure? ==> transcript == old(transcript)
    {
      r := Forward([tokenId], head);
    }
  }
}
