/** What the model computes without a cache. The arithmetic of one row is uninterpreted. */
module Transformer {
  /** One layer: query and key depend on the position, attention on the rows it may see. */
  datatype Layer<!H, !Q, !K, !V, !A> = Layer(
    query: (H, nat) -> Q,
    key: (H, nat) -> K,
    value: H -> V,
    attend: (Q, seq<K>, seq<V>) -> A,
    finish: (H, A) -> H)

  datatype Model<!H, !Q, !K, !V, !A, !L> = Model(
    embed: int -> H,
    layers: seq<Layer<H, Q, K, V, A>>,
    logits: H -> L)

  function KeyRows<H, Q, K, V, A>(layer: Layer<H, Q, K, V, A>, xs: seq<H>, pos: nat): (ks: seq<K>)
    ensures |ks| == |xs|
  {
    seq(|xs|, i requires 0 <= i < |xs| => layer.key(xs[i], pos + i))
  }

  function ValueRows<H, Q, K, V, A>(layer: Layer<H, Q, K, V, A>, xs: seq<H>): (vs: seq<V>)
    ensures |vs| == |xs|
  {
    seq(|xs|, i requires 0 <= i < |xs| => layer.value(xs[i]))
  }

  /** The output row of a token at position `pos` that sees the given key and value rows. */
  function Output<H, Q, K, V, A>(layer: Layer<H, Q, K, V, A>, x: H, pos: nat, ks: seq<K>, vs: seq<V>): H {
    layer.finish(x, layer.attend(layer.query(x, pos), ks, vs))
  }

  /** A whole layer under a causal mask: row `i` sees the rows up to itself. */
  function Apply<H, Q, K, V, A>(layer: Layer<H, Q, K, V, A>, xs: seq<H>): (ys: seq<H>)
    ensures |ys| == |xs|
  {
    seq(|xs|, i requires 0 <= i < |xs| =>
      Output(layer, xs[i], i, KeyRows(layer, xs, 0)[..i + 1], ValueRows(layer, xs)[..i + 1]))
  }

  /** The rows that enter layer `l` when the whole transcript is computed from scratch. */
  function Rows<H, Q, K, V, A, L>(m: Model<H, Q, K, V, A, L>, l: nat, tokens: seq<int>): (xs: seq<H>)
    requires l <= |m.layers|
    ensures |xs| == |tokens|
    decreases l
  {
    if l == 0 then seq(|tokens|, i requires 0 <= i < |tokens| => m.embed(tokens[i]))
    else Apply(m.layers[l - 1], Rows(m, l - 1, tokens))
  }

  /** The logits after the last token, recomputed from scratch. */
  function Logits<H, Q, K, V, A, L>(m: Model<H, Q, K, V, A, L>, tokens: seq<int>): L
    requires tokens != []
  {
    m.logits(Rows(m, |m.layers|, tokens)[|tokens| - 1])
  }

  /** What the K cache of layer `l` must hold for a transcript. */
  function Keys<H, Q, K, V, A, L>(m: Model<H, Q, K, V, A, L>, l: nat, tokens: seq<int>): (ks: seq<K>)
    requires l < |m.layers|
    ensures |ks| == |tokens|
  {
    KeyRows(m.layers[l], Rows(m, l, tokens), 0)
  }

  function Values<H, Q, K, V, A, L>(m: Model<H, Q, K, V, A, L>, l: nat, tokens: seq<int>): (vs: seq<V>)
    requires l < |m.layers|
    ensures |vs| == |tokens|
  {
    ValueRows(m.layers[l], Rows(m, l, tokens))
  }

  // ----- the same, written out over the model's own operations

  /** Row `i` comes out of a layer: its query, turned to position `i`, attends to the keys and values of the rows up to its own. */
  ghost predicate ComesOut<H, Q, K, V, A>(layer: Layer<H, Q, K, V, A>, xs: seq<H>, ys: seq<H>, i: nat)
    requires i < |xs| == |ys|
  {
    ys[i] == layer.finish(xs[i], layer.attend(layer.query(xs[i], i),
                                              seq(i + 1, j requires 0 <= j <= i => layer.key(xs[j], j)),
                                              seq(i + 1, j requires 0 <= j <= i => layer.value(xs[j]))))
  }

  ghost predicate LayerComputes<H, Q, K, V, A>(layer: Layer<H, Q, K, V, A>, xs: seq<H>, ys: seq<H>) {
    |xs| == |ys| && forall i :: 0 <= i < |xs| ==> ComesOut(layer, xs, ys, i)
  }

  /** `xs[l]` holds the rows that enter layer `l`, and the last of them what leaves the last layer. */
  ghost predicate IsComputation<H, Q, K, V, A, L>(m: Model<H, Q, K, V, A, L>, tokens: seq<int>, xs: seq<seq<H>>) {
    && |xs| == |m.layers| + 1 && (forall l :: 0 <= l < |xs| ==> |xs[l]| == |tokens|)
    && (forall i :: 0 <= i < |tokens| ==> xs[0][i] == m.embed(tokens[i]))
    && (forall l :: 0 <= l < |m.layers| ==> LayerComputes(m.layers[l], xs[l], xs[l + 1]))
  }

  function AllRows<H, Q, K, V, A, L>(m: Model<H, Q, K, V, A, L>, tokens: seq<int>): (xs: seq<seq<H>>)
    ensures |xs| == |m.layers| + 1 && forall l :: 0 <= l < |xs| ==> xs[l] == Rows(m, l, tokens)
  {
    seq(|m.layers| + 1, l requires 0 <= l <= |m.layers| => Rows(m, l, tokens))
  }

  lemma ApplyComputes<H, Q, K, V, A>(layer: Layer<H, Q, K, V, A>, xs: seq<H>)
    ensures LayerComputes(layer, xs, Apply(layer, xs))
  {
    forall i | 0 <= i < |xs|
      ensures ComesOut(layer, xs, Apply(layer, xs), i)
    {
      assert KeyRows(layer, xs, 0)[..i + 1] == seq(i + 1, j requires 0 <= j <= i => layer.key(xs[j], j));
      assert ValueRows(layer, xs)[..i + 1] == seq(i + 1, j requires 0 <= j <= i => layer.value(xs[j]));
    }
  }

  lemma OneOutput<H, Q, K, V, A>(layer: Layer<H, Q, K, V, A>, xs: seq<H>, ys: seq<H>, zs: seq<H>)
    requires LayerComputes(layer, xs, ys) && LayerComputes(layer, xs, zs)
    ensures ys == zs
  {
    forall i | 0 <= i < |xs|
      ensures ys[i] == zs[i]
    {
      assert ComesOut(layer, xs, ys, i) && ComesOut(layer, xs, zs, i);
    }
  }

  /** The rows are that computation. */
  lemma RowsCompute<H, Q, K, V, A, L>(m: Model<H, Q, K, V, A, L>, tokens: seq<int>)
    ensures IsComputation(m, tokens, AllRows(m, tokens))
  {
    forall l | 0 <= l < |m.layers|
      ensures LayerComputes(m.layers[l], AllRows(m, tokens)[l], AllRows(m, tokens)[l + 1])
    {
      ApplyComputes(m.layers[l], Rows(m, l, tokens));
    }
  }

  /** And there is no other. */
  lemma {:induction false} ComputationIsRows<H, Q, K, V, A, L>(m: Model<H, Q, K, V, A, L>, tokens: seq<int>, xs: seq<seq<H>>, l: nat)
    requires IsComputation(m, tokens, xs) && l <= |m.layers|
    ensures xs[l] == Rows(m, l, tokens)
    decreases l
  {
    if l > 0 {
      ComputationIsRows(m, tokens, xs, l - 1);
      ApplyComputes(m.layers[l - 1], Rows(m, l - 1, tokens));
      OneOutput(m.layers[l - 1], xs[l - 1], xs[l - 1 + 1], Rows(m, l, tokens));
    }
  }

  /** `value` is what the model says behind the last of the tokens, `xs` being its computation. */
  ghost predicate Says<H, Q, K, V, A, L>(m: Model<H, Q, K, V, A, L>, tokens: seq<int>, xs: seq<seq<H>>, value: L) {
    IsComputation(m, tokens, xs) && tokens != [] && value == m.logits(xs[|m.layers|][|tokens| - 1])
  }

  lemma LogitsAreSaid<H, Q, K, V, A, L>(m: Model<H, Q, K, V, A, L>, tokens: seq<int>)
    requires tokens != []
    ensures Says(m, tokens, AllRows(m, tokens), Logits(m, tokens))
  {
    RowsCompute(m, tokens);
  }

  /** Later tokens do not change the rows of earlier ones. */
  lemma {:induction false} RowsPrefix<H, Q, K, V, A, L>(m: Model<H, Q, K, V, A, L>, l: nat, tokens: seq<int>, n: nat)
    requires l <= |m.layers| && n <= |tokens|
    ensures Rows(m, l, tokens)[..n] == Rows(m, l, tokens[..n])
    decreases l
  {
    if l > 0 {
      RowsPrefix(m, l - 1, tokens, n);
      ApplyPrefix(m.layers[l - 1], Rows(m, l - 1, tokens), n);
    }
  }

  lemma ApplyPrefix<H, Q, K, V, A>(layer: Layer<H, Q, K, V, A>, xs: seq<H>, n: nat)
    requires n <= |xs|
    ensures Apply(layer, xs)[..n] == Apply(layer, xs[..n])
  {
    forall i | 0 <= i < n
      ensures Apply(layer, xs)[i] == Apply(layer, xs[..n])[i]
    {
      assert KeyRows(layer, xs, 0)[..i + 1] == KeyRows(layer, xs[..n], 0)[..i + 1];
      assert ValueRows(layer, xs)[..i + 1] == ValueRows(layer, xs[..n])[..i + 1];
    }
  }

  lemma CachePrefix<H, Q, K, V, A, L>(m: Model<H, Q, K, V, A, L>, l: nat, tokens: seq<int>, n: nat)
    requires l < |m.layers| && n <= |tokens|
    ensures Keys(m, l, tokens)[..n] == Keys(m, l, tokens[..n])
    ensures Values(m, l, tokens)[..n] == Values(m, l, tokens[..n])
  {
    RowsPrefix(m, l, tokens, n);
    assert forall i :: 0 <= i < n ==> Rows(m, l, tokens)[i] == Rows(m, l, tokens)[..n][i];
  }

  // ----- one token at a time, with a cache passed along

  datatype Cache<K, V> = Cache(ks: seq<seq<K>>, vs: seq<seq<V>>)

  /** Push one token's row through layers `l` and up, extending each layer's cache by one row. */
  function StepLayers<H, Q, K, V, A, L>(m: Model<H, Q, K, V, A, L>, c: Cache<K, V>, l: nat, x: H, pos: nat): (r: (Cache<K, V>, H))
    requires l <= |m.layers| == |c.ks| == |c.vs|
    ensures |r.0.ks| == |c.ks| && |r.0.vs| == |c.vs|
    decreases |m.layers| - l
  {
    if l == |m.layers| then (c, x)
    else
      var ks := c.ks[l] + [m.layers[l].key(x, pos)];
      var vs := c.vs[l] + [m.layers[l].value(x)];
      StepLayers(m, Cache(c.ks[l := ks], c.vs[l := vs]), l + 1, Output(m.layers[l], x, pos, ks, vs), pos)
  }

  function EmptyCache<H, Q, K, V, A, L>(m: Model<H, Q, K, V, A, L>): Cache<K, V> {
    Cache(seq(|m.layers|, i => []), seq(|m.layers|, i => []))
  }

  /** Feed the tokens one by one; the row is that of the last token. */
  function Steps<H, Q, K, V, A, L>(m: Model<H, Q, K, V, A, L>, tokens: seq<int>): (r: Cache<K, V>)
    ensures |r.ks| == |r.vs| == |m.layers|
  {
    if tokens == [] then EmptyCache(m)
    else
      var n := |tokens| - 1;
      StepLayers(m, Steps(m, tokens[..n]), 0, m.embed(tokens[n]), n).0
  }

  function StepLogits<H, Q, K, V, A, L>(m: Model<H, Q, K, V, A, L>, tokens: seq<int>): L
    requires tokens != []
  {
    var n := |tokens| - 1;
    m.logits(StepLayers(m, Steps(m, tokens[..n]), 0, m.embed(tokens[n]), n).1)
  }

  ghost predicate Caches<H, Q, K, V, A, L>(m: Model<H, Q, K, V, A, L>, c: Cache<K, V>, tokens: seq<int>) {
    && |c.ks| == |c.vs| == |m.layers|
    && forall l :: 0 <= l < |m.layers| ==> c.ks[l] == Keys(m, l, tokens) && c.vs[l] == Values(m, l, tokens)
  }

  lemma CacheSnoc<H, Q, K, V, A, L>(m: Model<H, Q, K, V, A, L>, l: nat, tokens: seq<int>)
    requires l < |m.layers| && tokens != []
    ensures var n := |tokens| - 1;
      && Keys(m, l, tokens[..n]) + [m.layers[l].key(Rows(m, l, tokens)[n], n)] == Keys(m, l, tokens)
      && Values(m, l, tokens[..n]) + [m.layers[l].value(Rows(m, l, tokens)[n])] == Values(m, l, tokens)
  {
    var n := |tokens| - 1;
    CachePrefix(m, l, tokens, n);
    LastOf(Keys(m, l, tokens), n);
    LastOf(Values(m, l, tokens), n);
  }

  lemma LastOf<T>(s: seq<T>, n: nat)
    requires |s| == n + 1
    ensures s == s[..n] + [s[n]]
  {
  }

  lemma RowIsOutput<H, Q, K, V, A, L>(m: Model<H, Q, K, V, A, L>, l: nat, tokens: seq<int>, i: nat)
    requires l < |m.layers| && i < |tokens|
    ensures Rows(m, l + 1, tokens)[i] ==
      Output(m.layers[l], Rows(m, l, tokens)[i], i, Keys(m, l, tokens)[..i + 1], Values(m, l, tokens)[..i + 1])
  {
  }

  lemma {:induction false} StepLayersIsRow<H, Q, K, V, A, L>(m: Model<H, Q, K, V, A, L>, c: Cache<K, V>, l: nat, x: H, tokens: seq<int>)
    requires tokens != [] && l <= |m.layers| == |c.ks| == |c.vs|
    requires x == Rows(m, l, tokens)[|tokens| - 1]
    requires forall j :: 0 <= j < |m.layers| ==>
      var ts := if j < l then tokens else tokens[..|tokens| - 1];
      c.ks[j] == Keys(m, j, ts) && c.vs[j] == Values(m, j, ts)
    ensures var r := StepLayers(m, c, l, x, |tokens| - 1);
      Caches(m, r.0, tokens) && r.1 == Rows(m, |m.layers|, tokens)[|tokens| - 1]
    decreases |m.layers| - l
  {
    if l < |m.layers| {
      var n := |tokens| - 1;
      var layer := m.layers[l];
      CacheSnoc(m, l, tokens);
      RowIsOutput(m, l, tokens, n);
      var ks, vs := c.ks[l] + [layer.key(x, n)], c.vs[l] + [layer.value(x)];
      assert ks == ks[..n + 1] && vs == vs[..n + 1];
      StepLayersIsRow(m, Cache(c.ks[l := ks], c.vs[l := vs]), l + 1, Output(layer, x, n, ks, vs), tokens);
    }
  }

  /** Feeding a transcript token by token through caches computes what recomputing it from scratch does. */
  lemma {:induction false} StepsAreRows<H, Q, K, V, A, L>(m: Model<H, Q, K, V, A, L>, tokens: seq<int>)
    ensures Caches(m, Steps(m, tokens), tokens)
    ensures tokens != [] ==> StepLogits(m, tokens) == Logits(m, tokens)
    decreases |tokens|
  {
    if tokens == [] {
      forall l | 0 <= l < |m.layers|
        ensures Steps(m, tokens).ks[l] == Keys(m, l, tokens) && Steps(m, tokens).vs[l] == Values(m, l, tokens)
      {
      }
    } else {
      var n := |tokens| - 1;
      StepsAreRows(m, tokens[..n]);
      StepLayersIsRow(m, Steps(m, tokens[..n]), 0, m.embed(tokens[n]), tokens);
    }
  }
}
