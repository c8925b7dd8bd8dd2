/** The autoregressive loop, and the cacheless generation it carries out. */
module Generation {
  import opened Wrappers
  import opened Transformer
  import opened KvCache

  /** What the loop asks of the tokenizer. */
  datatype Vocabulary = Vocabulary(isEos: int -> bool, piece: int -> Option<string>)

  /** One sampling step: logits, recent tokens and random state to a token and the next random state, or an error. */
  type Sampler<!L, !R> = (L, seq<int>, R) -> Option<(int, R)>

  datatype GenerateError =
    | EmptyPrompt
    | Forward(error: ForwardError)
    | Logit
    | ContextLengthExceeded(max: nat)
    | ContextFull(used: nat, max: nat)

  datatype Stats = Stats(promptTokens: nat, generatedTokens: nat)

  /** How a run ends: `generated` is what was fed back to the model, `next` the token that was not. */
  datatype Outcome = Finished(generated: seq<int>, next: int) | Failed(generated: seq<int>)

  const WINDOW: nat := 64

  function Window(tokens: seq<int>): seq<int> {
    if |tokens| <= WINDOW then tokens else tokens[|tokens| - WINDOW..]
  }

  function Text(vocab: Vocabulary, tokens: seq<int>): string {
    if tokens == [] then ""
    else Text(vocab, tokens[..|tokens| - 1]) +
         match vocab.piece(tokens[|tokens| - 1]) case Some(piece) => piece case None => ""
  }

  /** What stays fixed during a run. */
  datatype Setup<!H, !Q, !K, !V, !A, !L, !R> = Setup(
    model: Model<H, Q, K, V, A, L>,
    vocab: Vocabulary,
    sampler: Sampler<L, R>,
    prompt: seq<int>,
    maxNew: nat,
    nCtx: nat)

  predicate Stops<H, Q, K, V, A, L, R>(s: Setup<H, Q, K, V, A, L, R>, generated: seq<int>, next: int) {
    s.vocab.isEos(next) || |generated| >= s.maxNew || |s.prompt| + |generated| >= s.nCtx
  }

  function Sample<H, Q, K, V, A, L, R>(s: Setup<H, Q, K, V, A, L, R>, generated: seq<int>, rng: R): Option<(int, R)>
    requires s.prompt != []
  {
    s.sampler(Logits(s.model, s.prompt + generated), Window(generated), rng)
  }

  /** Generation without a cache: every logit row is recomputed from the whole transcript. */
  function Continue<H, Q, K, V, A, L, R>(s: Setup<H, Q, K, V, A, L, R>, generated: seq<int>, next: int, rng: R): Outcome
    requires s.prompt != []
    decreases s.maxNew - |generated|
  {
    if Stops(s, generated, next) then Finished(generated, next)
    else
      var more := generated + [next];
      match Sample(s, more, rng)
      case None => Failed(more)
      case Some((token, rng1)) => Continue(s, more, token, rng1)
  }

  function Generate<H, Q, K, V, A, L, R>(s: Setup<H, Q, K, V, A, L, R>, rng: R): Outcome
    requires s.prompt != []
  {
    match Sample(s, [], rng)
    case None => Failed([])
    case Some((token, rng1)) => Continue(s, [], token, rng1)
  }

  /** `next` is drawn, and `rng1` left, after the prompt and `tokens`: from what the model says behind them and the last 64 of `tokens`. */
  ghost predicate Drawn<H, Q, K, V, A, L, R>(s: Setup<H, Q, K, V, A, L, R>, tokens: seq<int>, rng: R, next: int, rng1: R) {
    var all := s.prompt + tokens;
    var xs := AllRows(s.model, all);
    && IsComputation(s.model, all, xs) && all != []
    && s.sampler(s.model.logits(xs[|s.model.layers|][|all| - 1]), if |tokens| <= 64 then tokens else tokens[|tokens| - 64..], rng)
       == Some((next, rng1))
  }

  lemma SampleIsDrawn<H, Q, K, V, A, L, R>(s: Setup<H, Q, K, V, A, L, R>, tokens: seq<int>, rng: R, next: int, rng1: R)
    requires s.prompt != []
    ensures Drawn(s, tokens, rng, next, rng1) <==> Sample(s, tokens, rng) == Some((next, rng1))
  {
    LogitsAreSaid(s.model, s.prompt + tokens);
  }

  /** Token `i` is drawn after everything before it. */
  ghost predicate Sampled<H, Q, K, V, A, L, R>(s: Setup<H, Q, K, V, A, L, R>, tokens: seq<int>, rngs: seq<R>, i: nat)
    requires 0 < i < |tokens| == |rngs|
  {
    Drawn(s, tokens[..i], rngs[i - 1], tokens[i], rngs[i])
  }

  /** A stop token, the limit, or a full context. */
  predicate StopsAt<H, Q, K, V, A, L, R>(s: Setup<H, Q, K, V, A, L, R>, tokens: seq<int>, i: nat)
    requires i < |tokens|
  {
    s.vocab.isEos(tokens[i]) || i >= s.maxNew || |s.prompt| + i >= s.nCtx
  }

  /** A whole run at once: each token is sampled from everything before it, and only the last one stops. */
  ghost predicate IsRun<H, Q, K, V, A, L, R>(s: Setup<H, Q, K, V, A, L, R>, tokens: seq<int>, rngs: seq<R>, start: nat) {
    && start < |tokens| == |rngs|
    && (forall i :: start < i < |tokens| ==> Sampled(s, tokens, rngs, i))
    && (forall i :: start <= i < |tokens| ==> (StopsAt(s, tokens, i) <==> i == |tokens| - 1))
  }

  lemma {:induction false} ContinueToRun<H, Q, K, V, A, L, R>(s: Setup<H, Q, K, V, A, L, R>, generated: seq<int>, next: int, rng: R, before: seq<R>)
    returns (rngs: seq<R>)
    requires s.prompt != [] && |before| == |generated| && Continue(s, generated, next, rng).Finished?
    ensures var o := Continue(s, generated, next, rng);
      && IsRun(s, o.generated + [o.next], rngs, |generated|)
      && generated + [next] <= o.generated + [o.next] && before + [rng] <= rngs
    decreases s.maxNew - |generated|
  {
    var more := generated + [next];
    assert more[..|generated|] == generated;
    if Stops(s, generated, next) {
      rngs := before + [rng];
    } else {
      var sampled := Sample(s, more, rng).value;
      rngs := ContinueToRun(s, more, sampled.0, sampled.1, before + [rng]);
      var o := Continue(s, more, sampled.0, sampled.1);
      RunPrepend(s, o.generated + [o.next], rngs, more, sampled.0, before + [rng], sampled.1);
    }
  }

  lemma PrefixParts<T>(a: seq<T>, x: T, s: seq<T>)
    requires a != [] && a + [x] <= s
    ensures a <= s && s[..|a|] == a && s[|a|] == x && s[..|a| - 1] == a[..|a| - 1] && s[|a| - 1] == a[|a| - 1]
  {
    assert s[..|a| + 1] == a + [x];
    assert s[..|a|] == s[..|a| + 1][..|a|];
    assert s[..|a| - 1] == s[..|a|][..|a| - 1];
  }

  /** One more token in front of a run. */
  lemma RunPrepend<H, Q, K, V, A, L, R>(s: Setup<H, Q, K, V, A, L, R>, tokens: seq<int>, rngs: seq<R>,
                                        more: seq<int>, token: int, before: seq<R>, rng: R)
    requires s.prompt != [] && |more| == |before| > 0 && IsRun(s, tokens, rngs, |more|)
    requires more + [token] <= tokens && before + [rng] <= rngs
    requires Sample(s, more, before[|before| - 1]) == Some((token, rng))
    requires !Stops(s, more[..|more| - 1], more[|more| - 1])
    ensures IsRun(s, tokens, rngs, |more| - 1) && more <= tokens && before <= rngs
  {
    var n := |more|;
    PrefixParts(more, token, tokens);
    PrefixParts(before, rng, rngs);
    SampleIsDrawn(s, more, rngs[n - 1], token, rng);
    assert Sampled(s, tokens, rngs, n) && !StopsAt(s, tokens, n - 1);
  }

  lemma {:induction false} RunToContinue<H, Q, K, V, A, L, R>(s: Setup<H, Q, K, V, A, L, R>, tokens: seq<int>, rngs: seq<R>, start: nat)
    requires s.prompt != [] && IsRun(s, tokens, rngs, start)
    ensures Continue(s, tokens[..start], tokens[start], rngs[start]) == Finished(tokens[..|tokens| - 1], tokens[|tokens| - 1])
    decreases |tokens| - start
  {
    assert StopsAt(s, tokens, start) <==> start == |tokens| - 1;
    if start < |tokens| - 1 {
      assert tokens[..start] + [tokens[start]] == tokens[..start + 1];
      assert Sampled(s, tokens, rngs, start + 1);
      SampleIsDrawn(s, tokens[..start + 1], rngs[start], tokens[start + 1], rngs[start + 1]);
      RunToContinue(s, tokens, rngs, start + 1);
    }
  }

  /** `Generate` yields exactly the autoregressive run of the sampler: no other token list is one. */
  lemma GenerateIsTheRun<H, Q, K, V, A, L, R(!new)>(s: Setup<H, Q, K, V, A, L, R>, rng: R, generated: seq<int>, next: int)
    requires s.prompt != []
    ensures Generate(s, rng) == Finished(generated, next) <==>
      exists rngs: seq<R> :: IsRun(s, generated + [next], rngs, 0) && Drawn(s, [], rng, (generated + [next])[0], rngs[0])
  {
    var tokens := generated + [next];
    if Generate(s, rng) == Finished(generated, next) {
      var first := Sample(s, [], rng).value;
      var rngs := ContinueToRun(s, [], first.0, first.1, []);
      assert tokens[0] == ([] + [first.0])[0] && rngs[0] == ([] + [first.1])[0];
      SampleIsDrawn(s, [], rng, tokens[0], rngs[0]);
      assert IsRun(s, generated + [next], rngs, 0) && Drawn(s, [], rng, (generated + [next])[0], rngs[0]);
    }
    forall rngs: seq<R> | IsRun(s, tokens, rngs, 0) && Drawn(s, [], rng, tokens[0], rngs[0])
      ensures Generate(s, rng) == Finished(generated, next)
    {
      SampleIsDrawn(s, [], rng, tokens[0], rngs[0]);
      RunToContinue(s, tokens, rngs, 0);
      assert tokens[..0] == [] && tokens[..|tokens| - 1] == generated;
    }
  }

  /** However a run ends: no stop id was fed back, and neither the limit nor the context was exceeded. */
  lemma {:induction false} RunIsBounded<H, Q, K, V, A, L, R>(s: Setup<H, Q, K, V, A, L, R>, generated: seq<int>, next: int, rng: R)
    requires s.prompt != []
    requires |generated| <= s.maxNew && |s.prompt| + |generated| <= s.nCtx
    requires forall i :: 0 <= i < |generated| ==> !s.vocab.isEos(generated[i])
    ensures var o := Continue(s, generated, next, rng);
      && generated <= o.generated && |o.generated| <= s.maxNew && |s.prompt| + |o.generated| <= s.nCtx
      && (forall i :: 0 <= i < |o.generated| ==> !s.vocab.isEos(o.generated[i]))
      && (o.Finished? ==> Stops(s, o.generated, o.next))
    decreases s.maxNew - |generated|
  {
    if !Stops(s, generated, next) {
      var more := generated + [next];
      match Sample(s, more, rng)
      case None =>
      case Some((token, rng1)) => RunIsBounded(s, more, token, rng1);
    }
  }

  lemma GeneratedIsBounded<H, Q, K, V, A, L, R>(s: Setup<H, Q, K, V, A, L, R>, rng: R)
    requires s.prompt != [] && |s.prompt| <= s.nCtx
    ensures var o := Generate(s, rng);
      && |o.generated| <= s.maxNew && |s.prompt| + |o.generated| <= s.nCtx
      && (forall i :: 0 <= i < |o.generated| ==> !s.vocab.isEos(o.generated[i]))
      && (o.Finished? ==> s.vocab.isEos(o.next) || |o.generated| == s.maxNew || |s.prompt| + |o.generated| == s.nCtx)
  {
    match Sample(s, [], rng)
    case None =>
    case Some((token, rng1)) => RunIsBounded(s, [], token, rng1);
  }

  /** The sliding window of recent tokens. */
  method PushRecent(recent: seq<int>, next: int, ghost tokens: seq<int>) returns (r: seq<int>)
    requires recent == Window(tokens)
    ensures r == Window(tokens + [next])
  {
    r := recent + [next];
    if |r| > WINDOW {
      r := r[1..];
    }
  }

  lemma TextSnoc(vocab: Vocabulary, tokens: seq<int>, next: int)
    ensures Text(vocab, tokens + [next]) ==
      Text(vocab, tokens) + match vocab.piece(next) case Some(piece) => piece case None => ""
  {
    assert (tokens + [next])[..|tokens|] == tokens;
  }

  /** The text is that of the tokens one behind the other; a token without a piece has none. */
  lemma {:induction false} TextOfParts(vocab: Vocabulary, a: seq<int>, b: seq<int>)
    ensures Text(vocab, a + b) == Text(vocab, a) + Text(vocab, b)
    ensures |a| == 1 ==> Text(vocab, a) == match vocab.piece(a[0]) case Some(piece) => piece case None => ""
    decreases |b|
  {
    var none: seq<int> := [];
    if |a| == 1 {
      assert none + [a[0]] == a;
      TextSnoc(vocab, none, a[0]);
    }
    if b == [] {
      assert a + b == a;
    } else {
      var n := |b| - 1;
      TextOfParts(vocab, a, b[..n]);
      TextSnoc(vocab, a + b[..n], b[n]);
      assert a + b == (a + b[..n]) + [b[n]];
    }
  }

  lemma Snoc<T>(a: seq<T>, b: seq<T>, x: T)
    ensures a + b + [x] == a + (b + [x])
  {
  }

  method PushPiece(vocab: Vocabulary, text: string, next: int, ghost tokens: seq<int>) returns (r: string)
    requires text == Text(vocab, tokens)
    ensures r == Text(vocab, tokens + [next])
  {
    r := text;
    var piece := vocab.piece(next);
    if piece.Some? {
      r := r + piece.value;
    }
    TextSnoc(vocab, tokens, next);
  }

  /** Feed one token and sample the next; with room in the cache the forward pass cannot fail. */
  method DecodeStep<H, Q, K(0), V(0), A, L, R>(fwd: LlamaGraph<H, Q, K, V, A, L>, sampler: Sampler<L, R>, token: int, recent: seq<int>, rng: R)
    returns (r: Result<Option<(int, R)>, ForwardError>)
    requires fwd.Valid() && fwd.head < fwd.nCtx
    modifies fwd`head, fwd`transcript, fwd.k, fwd.v
    ensures fwd.Valid() && fwd.transcript == old(fwd.transcript) + [token]
    ensures r == Success(sampler(Logits(fwd.model, fwd.transcript), recent, rng))
  {
    var decoded := fwd.DecodeOne(token);
    r := match decoded
      case Failure(error) => Failure(error)
      case Success(logits) => Success(sampler(logits, recent, rng));
  }

  /** The loop after the prompt has been read and the first token sampled. */
  lemma ContinueStep<H, Q, K, V, A, L, R>(s: Setup<H, Q, K, V, A, L, R>, tokens: seq<int>, next: int, rng: R)
    requires s.prompt != [] && !Stops(s, tokens, next)
    ensures Continue(s, tokens, next, rng) == match Sample(s, tokens + [next], rng)
      case None => Failed(tokens + [next])
      case Some(r) => Continue(s, tokens + [next], r.0, r.1)
  {
  }

  method DecodeLoop<H, Q, K(0), V(0), A, L, R>(fwd: LlamaGraph<H, Q, K, V, A, L>, ghost s: Setup<H, Q, K, V, A, L, R>, vocab: Vocabulary,
                                               maxNew: nat, sampler: Sampler<L, R>, first: int, seed: R)
    returns (r: Result<(nat, string), GenerateError>)
    requires fwd.Valid() && fwd.transcript == s.prompt != []
    requires s == Setup(fwd.model, vocab, sampler, s.prompt, maxNew, fwd.nCtx)
    modifies fwd`head, fwd`transcript, fwd.k, fwd.v
    ensures fwd.Valid()
    ensures var o := Continue(s, [], first, seed);
      && fwd.transcript == s.prompt + o.generated
      && r == if o.Finished? then Success((|o.generated|, Text(vocab, o.generated))) else Failure(Logit)
  {
    var next, rng := first, seed;
    var recent: seq<int> := [];
    var generated := 0;
    var text := "";
    ghost var tokens: seq<int> := [];
    ghost var whole := Continue(s, [], first, seed);
    while !(vocab.isEos(next) || generated >= maxNew || fwd.head >= fwd.nCtx)
      invariant fwd.Valid() && fwd.transcript == s.prompt + tokens
      invariant generated == |tokens| && recent == Window(tokens) && text == Text(vocab, tokens)
      invariant whole == Continue(s, tokens, next, rng)
      decreases maxNew - generated
    {
      text := PushPiece(vocab, text, next, tokens);
      recent := PushRecent(recent, next, tokens);
      Snoc(s.prompt, tokens, next);
      ContinueStep(s, tokens, next, rng);
      tokens := tokens + [next];
      var sampled := DecodeStep(fwd, sampler, next, recent, rng);
      generated := generated + 1;
      match sampled {
        case Failure(error) => return Failure(Forward(error));
        case Success(None) => return Failure(Logit);
        case Success(Some((token, rng1))) => next, rng := token, rng1;
      }
    }
    r := Success((generated, text));
  }

  /** One turn on the cache. No decode step can overflow, so a `Forward` error is never reported. */
  method RunGeneration<H, Q, K(0), V(0), A, L, R>(turnIds: seq<int>, fwd: LlamaGraph<H, Q, K, V, A, L>, vocab: Vocabulary,
                                                  maxNew: nat, sampler: Sampler<L, R>, seed: R)
    returns (r: Result<(Stats, string), GenerateError>)
    requires fwd.Valid()
    modifies fwd`head, fwd`transcript, fwd.k, fwd.v
    ensures fwd.Valid()
    ensures turnIds == [] ==> r == Failure(EmptyPrompt) && fwd.transcript == old(fwd.transcript)
    ensures turnIds != [] && old(fwd.head) + |turnIds| > fwd.nCtx ==>
      r == Failure(ContextFull(old(fwd.head) + |turnIds|, fwd.nCtx)) && fwd.transcript == old(fwd.transcript)
    ensures turnIds != [] && old(fwd.head) + |turnIds| <= fwd.nCtx ==>
      var prompt := old(fwd.transcript) + turnIds;
      var o := Generate(Setup(fwd.model, vocab, sampler, prompt, maxNew, fwd.nCtx), seed);
      && fwd.transcript == prompt + o.generated
      && r == if o.Finished? then Success((Stats(|turnIds|, |o.generated|), Text(vocab, o.generated))) else Failure(Logit)
  {
    if turnIds == [] {
      return Failure(EmptyPrompt);
    }
    var nCtx := fwd.nCtx;
    var used := fwd.head;
    var needed := |turnIds|;
    if used + needed > nCtx {
      return Failure(ContextFull(used + needed, nCtx));
    }
    ghost var prompt := fwd.transcript + turnIds;
    ghost var s := Setup(fwd.model, vocab, sampler, prompt, maxNew, nCtx);
    var prefilled := fwd.Prefill(turnIds);
    assert prompt + [] == prompt;
    var sampled: Option<(int, R)>;
    match prefilled {
      case Failure(error) => return Failure(Forward(error));
      case Success(logits) => sampled := sampler(logits, [], seed);
    }
    if sampled.None? {
      return Failure(Logit);
    }
    var run := DecodeLoop(fwd, s, vocab, maxNew, sampler, sampled.value.0, sampled.value.1);
    if run.Failure? {
      return Failure(run.error);
    }
    r := Success((Stats(needed, run.value.0), run.value.1));
  }

  /** Nothing is left of the prompt when it is trimmed. */
  predicate Blank(prompt: string, isSpace: char -> bool) {
    forall i :: 0 <= i < |prompt| ==> isSpace(prompt[i])
  }

  /** Single-shot generation. A blank prompt is refused before anything is touched; otherwise the outcome does not depend on what the
      cache held before. `encode` is the tokenizer, with or without the chat template around the prompt. */
  method GenerateOnce<H, Q, K(0), V(0), A, L, R>(prompt: string, isSpace: char -> bool, encode: string -> seq<int>,
                                                 fwd: LlamaGraph<H, Q, K, V, A, L>, vocab: Vocabulary,
                                                 maxNew: nat, contextLen: nat, sampler: Sampler<L, R>, seed: R)
    returns (r: Result<Stats, GenerateError>)
    requires fwd.Valid()
    modifies fwd`head, fwd`transcript, fwd.k, fwd.v
    ensures fwd.Valid()
    ensures Blank(prompt, isSpace) ==>
      r == Failure(EmptyPrompt) && unchanged(fwd, fwd.k, fwd.v)
    ensures !Blank(prompt, isSpace) ==>
      var ids := encode(prompt);
      if ids == [] then r == Failure(EmptyPrompt) && fwd.transcript == []
      else if |ids| >= contextLen then r == Failure(ContextLengthExceeded(contextLen)) && fwd.transcript == []
      else if |ids| > fwd.nCtx then r == Failure(ContextFull(|ids|, fwd.nCtx)) && fwd.transcript == []
      else
        var o := Generate(Setup(fwd.model, vocab, sampler, ids, maxNew, fwd.nCtx), seed);
        if o.Finished? then r == Success(Stats(|ids|, |o.generated|)) && fwd.transcript == []
        else r == Failure(Logit) && fwd.transcript == ids + o.generated
  {
    if forall i :: 0 <= i < |prompt| ==> isSpace(prompt[i]) {
      return Failure(EmptyPrompt);
    }
    fwd.ResetKv();
    var promptIds := encode(prompt);
    if promptIds == [] {
      return Failure(EmptyPrompt);
    }
    if |promptIds| >= contextLen {
      return Failure(ContextLengthExceeded(contextLen));
    }
    assert fwd.transcript + promptIds == promptIds;
    var run := RunGeneration(promptIds, fwd, vocab, maxNew, sampler, seed);
    if run.Failure? {
      return Failure(run.error);
    }
    fwd.ResetKv();
    r := Success(run.value.0);
  }
}
