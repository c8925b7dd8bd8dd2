/** Conversations: which messages the prompt of a turn is built from, and when old ones are evicted. */
module Engine {
  import opened Wrappers
  import opened Bytes
  import opened Transformer
  import opened KvCache
  import opened Generation

  /** The UTF-8 bytes of a message. */
  type Message = seq<Byte>

  /** The chat template: how the first message and a later one are framed and encoded. */
  datatype Template = Template(first: Message -> seq<int>, followup: Message -> seq<int>)

  function Estimate(message: Message): nat {
    |message| / 4 + 16
  }

  function Used(messages: seq<Message>): nat {
    if messages == [] then 0 else Estimate(messages[0]) + Used(messages[1..])
  }

  /** A quarter of the window is kept for the reply. */
  function Available(contextLen: nat): nat {
    contextLen - contextLen / 4
  }

  predicate Fits(messages: seq<Message>, i: nat, needed: nat, available: nat)
    requires i <= |messages|
  {
    needed + Used(messages[i..]) <= available
  }

  /** The index the eviction scan ends with: it starts at 0 and moves only on messages that fit. */
  function KeepFrom(messages: seq<Message>, needed: nat, available: nat): (k: nat)
    ensures k <= |messages|
  {
    if messages != [] && Fits(messages, |messages| - 1, needed, available)
    then Earliest(messages, |messages| - 1, needed, available)
    else 0
  }

  function Earliest(messages: seq<Message>, i: nat, needed: nat, available: nat): (k: nat)
    requires i <= |messages|
    ensures k <= i
  {
    if i > 0 && Fits(messages, i - 1, needed, available) then Earliest(messages, i - 1, needed, available) else i
  }

  ghost predicate IsLongestFit(messages: seq<Message>, k: nat, needed: nat, available: nat) {
    && k <= |messages| && Fits(messages, k, needed, available)
    && forall i :: 0 <= i < k ==> !Fits(messages, i, needed, available)
  }

  lemma {:induction false} UsedGrows(messages: seq<Message>, i: nat, j: nat)
    requires i <= j <= |messages|
    ensures Used(messages[j..]) <= Used(messages[i..])
    decreases j - i
  {
    if i < j {
      assert messages[i..][1..] == messages[i + 1..];
      UsedGrows(messages, i + 1, j);
    }
  }

  lemma {:induction false} EarliestIsLongest(messages: seq<Message>, i: nat, needed: nat, available: nat)
    requires i <= |messages| && Fits(messages, i, needed, available)
    ensures IsLongestFit(messages, Earliest(messages, i, needed, available), needed, available)
  {
    if i > 0 {
      if Fits(messages, i - 1, needed, available) {
        EarliestIsLongest(messages, i - 1, needed, available);
      } else {
        forall j | 0 <= j < i
          ensures !Fits(messages, j, needed, available)
        {
          UsedGrows(messages, j, i - 1);
        }
      }
    }
  }

  /** When something has to go, the longest fitting suffix is kept exactly if the newest message fits. */
  lemma KeptIsLongestIffNewestFits(messages: seq<Message>, needed: nat, available: nat)
    requires Used(messages) + needed > available
    ensures IsLongestFit(messages, KeepFrom(messages, needed, available), needed, available) <==>
      messages != [] && Fits(messages, |messages| - 1, needed, available)
  {
    assert messages[0..] == messages;
    if messages != [] && Fits(messages, |messages| - 1, needed, available) {
      EarliestIsLongest(messages, |messages| - 1, needed, available);
    }
  }

  /** A message too long to keep makes the scan keep everything. */
  lemma LongNewestKeepsAll(oldest: Message, newest: Message, needed: nat, available: nat)
    requires needed + Estimate(newest) > available
    ensures KeepFrom([oldest, newest], needed, available) == 0
    ensures needed <= available ==> IsLongestFit([oldest, newest], 2, needed, available)
  {
    var messages := [oldest, newest];
    assert messages[1..] == [newest] && [newest][1..] == [] && messages[2..] == [] && messages[0..] == messages;
  }

  /** The prompt of a conversation told from the start. */
  function Rebuilt(template: Template, messages: seq<Message>): seq<int> {
    if messages == [] then []
    else Rebuilt(template, messages[..|messages| - 1]) +
         if |messages| == 1 then template.first(messages[0]) else template.followup(messages[|messages| - 1])
  }

  datatype Prepared = Prepared(ids: seq<int>, messages: seq<Message>, evicted: bool)

  /** What a turn feeds to the model, and the messages remembered afterwards. */
  function Prepare(template: Template, messages: seq<Message>, turnCount: nat, contextLen: nat, prompt: Message): Prepared {
    var turnIds := if turnCount == 0 then template.first(prompt) else template.followup(prompt);
    var available := Available(contextLen);
    if Used(messages) + |turnIds| <= available then Prepared(turnIds, messages + [prompt], false)
    else Evicted(template, messages[KeepFrom(messages, |turnIds|, available)..], turnIds, available, prompt)
  }

  /** Retell the kept messages; if even that is too long, start over with this one. */
  function Evicted(template: Template, kept: seq<Message>, turnIds: seq<int>, available: nat, prompt: Message): Prepared {
    var full := Rebuilt(template, kept) + turnIds;
    if |full| <= available then Prepared(full, kept + [prompt], true)
    else Prepared(template.first(prompt), [prompt], true)
  }

  lemma PrepareEvicts(template: Template, messages: seq<Message>, turnCount: nat, contextLen: nat, prompt: Message, turnIds: seq<int>, k: nat)
    requires turnIds == (if turnCount == 0 then template.first(prompt) else template.followup(prompt))
    requires Used(messages) + |turnIds| > Available(contextLen)
    requires k <= |messages| && k == KeepFrom(messages, |turnIds|, Available(contextLen))
    ensures Prepare(template, messages, turnCount, contextLen, prompt) ==
      Evicted(template, messages[k..], turnIds, Available(contextLen), prompt)
    ensures Evicted(template, messages[k..], turnIds, Available(contextLen), prompt).evicted
  {
  }

  /** Either the prompt leaves room for the reply, or it is a fresh conversation of this one message. */
  lemma PreparedLeavesRoom(template: Template, messages: seq<Message>, turnCount: nat, contextLen: nat, prompt: Message)
    ensures var p := Prepare(template, messages, turnCount, contextLen, prompt);
      && (|p.ids| <= Available(contextLen) || (p.evicted && p.ids == template.first(prompt) && p.messages == [prompt]))
      && p.messages != [] && p.messages[|p.messages| - 1] == prompt
      && (exists k :: 0 <= k <= |messages| && p.messages == messages[k..] + [prompt])
      && Available(contextLen) + contextLen / 4 == contextLen
      && (p.evicted && |template.first(prompt)| <= contextLen ==> |p.ids| <= contextLen)
  {
    var p := Prepare(template, messages, turnCount, contextLen, prompt);
    assert messages[|messages|..] + [prompt] == [prompt];
    assert messages[0..] + [prompt] == messages + [prompt];
  }

  /** A rebuilt prompt retells the conversation of the remembered messages, provided the turn counter was not reset. */
  lemma EvictedRetells(template: Template, messages: seq<Message>, turnCount: nat, contextLen: nat, prompt: Message)
    requires turnCount == 0 ==> messages == []
    ensures var p := Prepare(template, messages, turnCount, contextLen, prompt);
      p.evicted ==> p.ids == Rebuilt(template, p.messages)
  {
    var p := Prepare(template, messages, turnCount, contextLen, prompt);
    if p.evicted {
      var turnIds := if turnCount == 0 then template.first(prompt) else template.followup(prompt);
      var kept := messages[KeepFrom(messages, |turnIds|, Available(contextLen))..];
      assert (kept + [prompt])[..|kept|] == kept;
      assert [prompt][..0] == [] && Rebuilt(template, [prompt]) == [] + template.first(prompt);
    }
  }

  /** After a reset the messages are still there: the next prompt stands alone exactly if they need no eviction, or their retelling is empty or too long. */
  lemma ResetKeepsMessages(template: Template, messages: seq<Message>, contextLen: nat, prompt: Message)
    ensures var first, available := template.first(prompt), Available(contextLen);
      var retold := Rebuilt(template, messages[KeepFrom(messages, |first|, available)..]);
      Prepare(template, messages, 0, contextLen, prompt).ids == first <==>
        Used(messages) + |first| <= available || retold == [] || |retold| + |first| > available
  {
    var first := template.first(prompt);
    var retold := Rebuilt(template, messages[KeepFrom(messages, |first|, Available(contextLen))..]);
    if retold != [] {
      assert |retold + first| > |first|;
    } else {
      assert retold + first == first;
    }
  }

  /** Each message framed and followed by its reply. */
  function Conversation(template: Template, messages: seq<Message>, replies: seq<seq<int>>): seq<int>
    requires |messages| == |replies|
  {
    if messages == [] then []
    else
      var n := |messages| - 1;
      Conversation(template, messages[..n], replies[..n]) +
      (if n == 0 then template.first(messages[0]) else template.followup(messages[n])) + replies[n]
  }

  function Silence(n: nat): seq<seq<int>> {
    seq(n, i => [])
  }

  /** An eviction keeps messages but no replies. */
  lemma {:induction false} RebuiltIsSilent(template: Template, messages: seq<Message>)
    ensures Conversation(template, messages, Silence(|messages|)) == Rebuilt(template, messages)
    decreases |messages|
  {
    if messages != [] {
      var n := |messages| - 1;
      RebuiltIsSilent(template, messages[..n]);
      assert Silence(|messages|)[..n] == Silence(n);
    }
  }

  lemma ConversationSnoc(template: Template, messages: seq<Message>, replies: seq<seq<int>>, message: Message, reply: seq<int>)
    requires |messages| == |replies|
    ensures Conversation(template, messages + [message], replies + [reply]) ==
      Conversation(template, messages, replies) + (if messages == [] then template.first(message) else template.followup(message)) + reply
  {
    assert (messages + [message])[..|messages|] == messages && (replies + [reply])[..|replies|] == replies;
  }

  /** The last message's reply comes last. */
  lemma SilentSnoc(template: Template, messages: seq<Message>, reply: seq<int>)
    requires messages != []
    ensures Conversation(template, messages, Silence(|messages| - 1) + [reply]) == Rebuilt(template, messages) + reply
  {
    var n := |messages| - 1;
    RebuiltIsSilent(template, messages[..n]);
    assert messages == messages[..n] + [messages[n]];
    ConversationSnoc(template, messages[..n], Silence(n), messages[n], reply);
  }

  // ----- the same without the functions above

  function Sum(numbers: seq<nat>): nat {
    if numbers == [] then 0 else Sum(numbers[..|numbers| - 1]) + numbers[|numbers| - 1]
  }

  /** A token for every four bytes, and sixteen for the frame. */
  function Estimates(messages: seq<Message>): (numbers: seq<nat>)
    ensures |numbers| == |messages|
  {
    seq(|messages|, i requires 0 <= i < |messages| => |messages[i]| / 4 + 16)
  }

  lemma {:induction false} UsedSnoc(messages: seq<Message>, message: Message)
    ensures Used(messages + [message]) == Used(messages) + |message| / 4 + 16
  {
    if messages == [] {
      assert [message][1..] == [] && [] + [message] == [message];
    } else {
      assert (messages + [message])[1..] == messages[1..] + [message];
      UsedSnoc(messages[1..], message);
    }
  }

  lemma {:induction false} UsedIsSum(messages: seq<Message>)
    ensures Used(messages) == Sum(Estimates(messages))
  {
    if messages != [] {
      var n := |messages| - 1;
      assert messages == messages[..n] + [messages[n]];
      UsedIsSum(messages[..n]);
      UsedSnoc(messages[..n], messages[n]);
      assert Estimates(messages)[..n] == Estimates(messages[..n]);
    }
  }

  function Flat(pieces: seq<seq<int>>): seq<int> {
    if pieces == [] then [] else pieces[0] + Flat(pieces[1..])
  }

  lemma {:induction false} FlatSnoc(pieces: seq<seq<int>>, piece: seq<int>)
    ensures Flat(pieces + [piece]) == Flat(pieces) + piece
    decreases |pieces|
  {
    if pieces == [] {
      assert [piece][1..] == [] && [] + [piece] == [piece];
    } else {
      assert (pieces + [piece])[1..] == pieces[1..] + [piece];
      FlatSnoc(pieces[1..], piece);
    }
  }

  /** The first message is framed as the first one, the others as later ones. */
  predicate Frames(template: Template, messages: seq<Message>, pieces: seq<seq<int>>) {
    && |pieces| == |messages|
    && forall i :: 0 <= i < |messages| ==> pieces[i] == if i == 0 then template.first(messages[0]) else template.followup(messages[i])
  }

  lemma {:induction false} RebuiltIsFrames(template: Template, messages: seq<Message>) returns (pieces: seq<seq<int>>)
    ensures Frames(template, messages, pieces) && Rebuilt(template, messages) == Flat(pieces)
    decreases |messages|
  {
    if messages == [] {
      pieces := [];
    } else {
      var n := |messages| - 1;
      var front := RebuiltIsFrames(template, messages[..n]);
      var last := if n == 0 then template.first(messages[0]) else template.followup(messages[n]);
      FlatSnoc(front, last);
      pieces := front + [last];
    }
  }

  /** A conversation is its frames, each followed by its reply. */
  predicate Exchanges(template: Template, messages: seq<Message>, replies: seq<seq<int>>, pieces: seq<seq<int>>) {
    && |pieces| == |messages| == |replies|
    && forall i :: 0 <= i < |messages| ==>
      pieces[i] == (if i == 0 then template.first(messages[0]) else template.followup(messages[i])) + replies[i]
  }

  lemma {:induction false} ConversationIsExchanges(template: Template, messages: seq<Message>, replies: seq<seq<int>>) returns (pieces: seq<seq<int>>)
    requires |messages| == |replies|
    ensures Exchanges(template, messages, replies, pieces) && Conversation(template, messages, replies) == Flat(pieces)
    decreases |messages|
  {
    if messages == [] {
      pieces := [];
    } else {
      var n := |messages| - 1;
      var front := ConversationIsExchanges(template, messages[..n], replies[..n]);
      var framed := if n == 0 then template.first(messages[0]) else template.followup(messages[n]);
      FlatSnoc(front, framed + replies[n]);
      Associative(Flat(front), framed, replies[n]);
      pieces := front + [framed + replies[n]];
    }
  }

  /** What is told from message `k` on leaves a quarter of the window free. */
  predicate Room(messages: seq<Message>, k: nat, turn: seq<int>, contextLen: nat) {
    k <= |messages| && |turn| + Sum(Estimates(messages[k..])) <= contextLen - contextLen / 4
  }

  /** The longest suffix there is room for; everything, if there is none for the newest message. */
  ghost predicate IsKept(messages: seq<Message>, k: nat, turn: seq<int>, contextLen: nat) {
    && k <= |messages|
    && if messages != [] && Room(messages, |messages| - 1, turn, contextLen)
       then Room(messages, k, turn, contextLen) && forall i: nat :: i < k ==> !Room(messages, i, turn, contextLen)
       else k == 0
  }

  /** The kept messages told again, or a fresh conversation where that leaves no room. */
  predicate IsRetold(template: Template, kept: seq<Message>, turn: seq<int>, contextLen: nat, prompt: Message, pieces: seq<seq<int>>, p: Prepared) {
    && Frames(template, kept, pieces)
    && p == if |Flat(pieces)| + |turn| <= contextLen - contextLen / 4 then Prepared(Flat(pieces) + turn, kept + [prompt], true)
            else Prepared(template.first(prompt), [prompt], true)
  }

  ghost predicate KeepsAndRetells(template: Template, messages: seq<Message>, k: nat, turn: seq<int>, contextLen: nat, prompt: Message,
                                  pieces: seq<seq<int>>, p: Prepared)
  {
    IsKept(messages, k, turn, contextLen) && IsRetold(template, messages[k..], turn, contextLen, prompt, pieces, p)
  }

  lemma KeptIs(messages: seq<Message>, turn: seq<int>, contextLen: nat)
    requires !Room(messages, 0, turn, contextLen)
    ensures IsKept(messages, KeepFrom(messages, |turn|, Available(contextLen)), turn, contextLen)
  {
    forall i: nat | i <= |messages|
      ensures Room(messages, i, turn, contextLen) <==> Fits(messages, i, |turn|, Available(contextLen))
    {
      UsedIsSum(messages[i..]);
    }
    assert messages[0..] == messages;
    if messages != [] && Room(messages, |messages| - 1, turn, contextLen) {
      EarliestIsLongest(messages, |messages| - 1, |turn|, Available(contextLen));
    }
  }

  /** A turn whose history leaves room goes on; any other evicts. */
  lemma TurnIsPrepared(template: Template, messages: seq<Message>, turnCount: nat, contextLen: nat, prompt: Message)
    ensures var turn := if turnCount == 0 then template.first(prompt) else template.followup(prompt);
      var p := Prepare(template, messages, turnCount, contextLen, prompt);
      if Room(messages, 0, turn, contextLen) then p == Prepared(turn, messages + [prompt], false)
      else exists k: nat, pieces :: KeepsAndRetells(template, messages, k, turn, contextLen, prompt, pieces, p)
  {
    var turn := if turnCount == 0 then template.first(prompt) else template.followup(prompt);
    assert messages[0..] == messages;
    UsedIsSum(messages);
    if !Room(messages, 0, turn, contextLen) {
      var k := KeepFrom(messages, |turn|, Available(contextLen));
      KeptIs(messages, turn, contextLen);
      var pieces := RebuiltIsFrames(template, messages[k..]);
      PrepareEvicts(template, messages, turnCount, contextLen, prompt, turn, k);
      assert KeepsAndRetells(template, messages, k, turn, contextLen, prompt, pieces, Prepare(template, messages, turnCount, contextLen, prompt));
    }
  }

  datatype StopReason = EndOfTurn | MaxTokens

  function Reported(generated: nat, maxNew: nat): StopReason {
    if generated >= maxNew then MaxTokens else EndOfTurn
  }

  /** The reported reason says whether the model ended its turn, except in two cases: the limit and the stop coincide, or the cache filled up first. */
  lemma StopReasonIsHonest<H, Q, K, V, A, L, R>(s: Setup<H, Q, K, V, A, L, R>, rng: R)
    requires s.prompt != [] && |s.prompt| <= s.nCtx && Generate(s, rng).Finished?
    ensures var o := Generate(s, rng);
      var ended := s.vocab.isEos(o.next);
      (Reported(|o.generated|, s.maxNew).EndOfTurn? <==> ended) <==>
        !(ended && |o.generated| == s.maxNew) &&
        !(!ended && |o.generated| < s.maxNew && |s.prompt| + |o.generated| == s.nCtx)
  {
    GeneratedIsBounded(s, rng);
  }

  /** A sampler that always returns the same token. */
  function Constant<L, R>(token: int): Sampler<L, R> {
    (logits: L, recent: seq<int>, rng: R) => Some((token, rng))
  }

  lemma {:induction false} ConstantRun<H, Q, K, V, A, L, R>(s: Setup<H, Q, K, V, A, L, R>, token: int, generated: seq<int>, rng: R)
    requires s.prompt != [] && s.sampler == Constant(token) && !s.vocab.isEos(token)
    requires |s.prompt| + |generated| <= s.nCtx && |s.prompt| + s.maxNew > s.nCtx
    ensures var o := Continue(s, generated, token, rng);
      o.Finished? && o.next == token && |s.prompt| + |o.generated| == s.nCtx
    decreases s.maxNew - |generated|
  {
    if !Stops(s, generated, token) {
      ConstantRun(s, token, generated + [token], rng);
    }
  }

  /** A report of an ended turn can be trusted, whatever the sampler does, exactly if prompt and limit fit the cache together. */
  lemma EndOfTurnTrustedIffLimitFits<H, Q, K, V, A, L, R(!new)>(model: Model<H, Q, K, V, A, L>, vocab: Vocabulary, prompt: seq<int>,
                                                               maxNew: nat, nCtx: nat, seed: R, token: int)
    requires 0 < |prompt| <= nCtx && !vocab.isEos(token)
    ensures |prompt| + maxNew <= nCtx ==>
      forall sampler: Sampler<L, R>, rng: R :: Trusted(Setup(model, vocab, sampler, prompt, maxNew, nCtx), rng)
    ensures |prompt| + maxNew > nCtx ==> !Trusted(Setup(model, vocab, Constant(token), prompt, maxNew, nCtx), seed)
  {
    forall sampler: Sampler<L, R>, rng: R | |prompt| + maxNew <= nCtx
      ensures Trusted(Setup(model, vocab, sampler, prompt, maxNew, nCtx), rng)
    {
      GeneratedIsBounded(Setup(model, vocab, sampler, prompt, maxNew, nCtx), rng);
    }
    if |prompt| + maxNew > nCtx {
      ConstantRun(Setup(model, vocab, Constant(token), prompt, maxNew, nCtx), token, [], seed);
    }
  }

  /** If the run reports an ended turn, the model did end it. */
  predicate Trusted<H, Q, K, V, A, L, R>(s: Setup<H, Q, K, V, A, L, R>, rng: R)
    requires s.prompt != []
  {
    var o := Generate(s, rng);
    o.Finished? && Reported(|o.generated|, s.maxNew).EndOfTurn? ==> s.vocab.isEos(o.next)
  }

  datatype GenOutput = GenOutput(text: string, promptTokens: nat, completionTokens: nat, stopReason: StopReason)

  class Engine<H, Q, K(0), V(0), A, L, R> {
    const fwd: LlamaGraph<H, Q, K, V, A, L>
    const vocab: Vocabulary
    const template: Template
    const sampler: Sampler<L, R>
    const contextLen: nat
    var turnCount: nat
    var turnMessages: seq<Message>
    /** What the model answered to each remembered message; empty where an eviction dropped it. */
    ghost var replies: seq<seq<int>>

    ghost predicate Valid()
      reads this, fwd, fwd.k, fwd.v
    {
      fwd.Valid() && fwd.nCtx == contextLen && turnCount <= |turnMessages|
    }

    /** The cache holds exactly the remembered conversation. */
    ghost predicate Tracks()
      reads this, fwd
    {
      turnCount == |turnMessages| == |replies| && fwd.transcript == Conversation(template, turnMessages, replies)
    }

    constructor (fwd: LlamaGraph<H, Q, K, V, A, L>, vocab: Vocabulary, template: Template, sampler: Sampler<L, R>)
      requires fwd.Valid() && fwd.transcript == []
      ensures Valid() && Tracks() && turnMessages == [] && this.fwd == fwd && contextLen == fwd.nCtx
    {
      this.fwd, this.vocab, this.template, this.sampler := fwd, vocab, template, sampler;
      contextLen := fwd.nCtx;
      turnCount, turnMessages, replies := 0, [], [];
    }

    /** The messages from the newest back, as long as the total fits. */
    method KeepIndex(needed: nat, available: nat) returns (keepIdx: nat)
      ensures keepIdx == KeepFrom(turnMessages, needed, available)
    {
      keepIdx := 0;
      var total := needed;
      var i := |turnMessages|;
      assert turnMessages[i..] == [];
      while i > 0
        invariant 0 <= i <= |turnMessages| && total == needed + Used(turnMessages[i..])
        invariant keepIdx == if i == |turnMessages| then 0 else i
        invariant i < |turnMessages| ==> Fits(turnMessages, |turnMessages| - 1, needed, available)
        invariant i < |turnMessages| ==>
          Earliest(turnMessages, |turnMessages| - 1, needed, available) == Earliest(turnMessages, i, needed, available)
      {
        var est := Estimate(turnMessages[i - 1]);
        assert turnMessages[i - 1..][0] == turnMessages[i - 1] && turnMessages[i - 1..][1..] == turnMessages[i..];
        if total + est > available {
          break;
        }
        total := total + est;
        i := i - 1;
        keepIdx := i;
      }
    }

    /** Tell the kept messages again, from the first-turn framing on. */
    method Retell(kept: seq<Message>) returns (fullIds: seq<int>)
      modifies this`turnCount, this`turnMessages
      ensures turnMessages == kept && turnCount == |kept| && fullIds == Rebuilt(template, kept)
    {
      turnMessages, turnCount := [], 0;
      fullIds := [];
      for i := 0 to |kept|
        invariant turnMessages == kept[..i] && turnCount == i && fullIds == Rebuilt(template, kept[..i])
      {
        var ids := if turnCount == 0 then template.first(kept[i]) else template.followup(kept[i]);
        assert kept[..i + 1][..i] == kept[..i];
        turnMessages := turnMessages + [kept[i]];
        turnCount := turnCount + 1;
        fullIds := fullIds + ids;
      }
      assert kept[..|kept|] == kept;
    }

    method PrepareTurn(prompt: Message) returns (ids: seq<int>)
      requires Valid()
      modifies this`turnCount, this`turnMessages, fwd`head, fwd`transcript
      ensures Valid()
      ensures var p := Prepare(template, old(turnMessages), old(turnCount), contextLen, prompt);
        && ids == p.ids && turnMessages == p.messages
        && turnCount == (if p.evicted then |p.messages| else old(turnCount) + 1)
        && fwd.transcript == (if p.evicted then [] else old(fwd.transcript))
    {
      var turnIds := if turnCount == 0 then template.first(prompt) else template.followup(prompt);
      var maxOutput := contextLen / 4;
      var available := contextLen - maxOutput;
      var used := SumEstimates();
      var needed := |turnIds|;
      if used + needed <= available {
        turnMessages := turnMessages + [prompt];
        turnCount := turnCount + 1;
        return turnIds;
      }
      var keepIdx := KeepIndex(needed, available);
      var kept := turnMessages[keepIdx..];
      PrepareEvicts(template, turnMessages, turnCount, contextLen, prompt, turnIds, keepIdx);
      ids := Rebuild(kept, turnIds, available, prompt);
    }

    /** Eviction: empty the cache and start again from the kept messages. */
    method Rebuild(kept: seq<Message>, turnIds: seq<int>, available: nat, prompt: Message) returns (ids: seq<int>)
      requires fwd.Valid()
      modifies this`turnCount, this`turnMessages, fwd`head, fwd`transcript
      ensures fwd.Valid() && fwd.transcript == []
      ensures var p := Evicted(template, kept, turnIds, available, prompt);
        ids == p.ids && turnMessages == p.messages && turnCount == |turnMessages|
    {
      fwd.ResetKv();
      var fullIds := Retell(kept);
      fullIds := fullIds + turnIds;
      turnMessages := turnMessages + [prompt];
      turnCount := turnCount + 1;
      if |fullIds| > available {
        turnMessages, turnCount := [prompt], 1;
        fwd.ResetKv();
        return template.first(prompt);
      }
      return fullIds;
    }

    method SumEstimates() returns (used: nat)
      ensures used == Used(turnMessages)
    {
      used := 0;
      assert turnMessages[0..] == turnMessages;
      for i := 0 to |turnMessages|
        invariant used + Used(turnMessages[i..]) == Used(turnMessages)
      {
        assert turnMessages[i..][1..] == turnMessages[i + 1..];
        used := used + Estimate(turnMessages[i]);
      }
    }

    /** One turn: prepare the prompt, then generate on the cache. */
    method GenerateInner(prompt: Message, maxTokens: int, seed: R) returns (r: Result<(Stats, string), GenerateError>)
      requires Valid()
      modifies this`turnCount, this`turnMessages, this`replies, fwd`head, fwd`transcript, fwd.k, fwd.v
      ensures Valid()
      ensures var p := Prepare(template, old(turnMessages), old(turnCount), contextLen, prompt);
        var start := if p.evicted then [] else old(fwd.transcript);
        && turnMessages == p.messages
        && (p.ids == [] ==> r == Failure(EmptyPrompt) && fwd.transcript == start)
        && (p.ids != [] && |start + p.ids| > contextLen ==>
             r == Failure(GenerateError.ContextFull(|start + p.ids|, contextLen)) && fwd.transcript == start)
        && (p.ids != [] && |start + p.ids| <= contextLen ==>
             var o := Generate(Setup(fwd.model, vocab, sampler, start + p.ids, if maxTokens < 1 then 1 else maxTokens, contextLen), seed);
             && fwd.transcript == start + p.ids + o.generated
             && r == if o.Finished? then Success((Stats(|p.ids|, |o.generated|), Text(vocab, o.generated))) else Failure(Logit))
      ensures old(Tracks()) && !(r.Failure? && r.error.ContextFull?) ==> Tracks()
    {
      ghost var messages, count, before := turnMessages, turnCount, fwd.transcript;
      var turnIds := PrepareTurn(prompt);
      ghost var start := fwd.transcript;
      assert |start + turnIds| == |start| + |turnIds|;
      r := RunGeneration(turnIds, fwd, vocab, Limit(maxTokens), sampler, seed);
      if !(r.Failure? && r.error.ContextFull?) {
        Remember(messages, count, before, prompt, start, turnIds);
      }
    }

    method GenerateRich(prompt: Message, maxTokens: int, seed: R) returns (r: Result<GenOutput, GenerateError>)
      requires Valid()
      modifies this`turnCount, this`turnMessages, this`replies, fwd`head, fwd`transcript, fwd.k, fwd.v
      ensures Valid()
      ensures var p := Prepare(template, old(turnMessages), old(turnCount), contextLen, prompt);
        var start := if p.evicted then [] else old(fwd.transcript);
        var fits := p.ids != [] && |start + p.ids| <= contextLen;
        && (!fits ==> r.Failure? && fwd.transcript == start)
        && (fits ==>
             var limit: nat := if maxTokens < 1 then 1 else maxTokens;
             var o := Generate(Setup(fwd.model, vocab, sampler, start + p.ids, limit, contextLen), seed);
             && fwd.transcript == start + p.ids + o.generated
             && r == if o.Finished?
               then Success(GenOutput(Text(vocab, o.generated), |p.ids|, |o.generated|, if |o.generated| >= limit then MaxTokens else EndOfTurn))
               else Failure(Logit))
      ensures old(Tracks()) && !(r.Failure? && r.error.ContextFull?) ==> Tracks()
    {
      var inner := GenerateInner(prompt, maxTokens, seed);
      if inner.Failure? {
        return Failure(inner.error);
      }
      var (stats, text) := inner.value;
      var stopReason := if stats.generatedTokens >= Limit(maxTokens) then MaxTokens else EndOfTurn;
      r := Success(GenOutput(text, stats.promptTokens, stats.generatedTokens, stopReason));
    }

    /** The cache and the counter are cleared, the remembered messages are not. */
    method Reset()
      requires Valid()
      modifies this`turnCount, fwd`head, fwd`transcript
      ensures Valid() && fwd.transcript == [] && turnCount == 0 && turnMessages == old(turnMessages)
    {
      fwd.ResetKv();
      turnCount := 0;
    }

    /** Note the reply that the cache now ends with. */
    ghost method Remember(messages: seq<Message>, count: nat, before: seq<int>, prompt: Message, start: seq<int>, ids: seq<int>)
      requires start + ids <= fwd.transcript
      requires var p := Prepare(template, messages, count, contextLen, prompt);
        && turnMessages == p.messages && ids == p.ids
        && turnCount == (if p.evicted then |p.messages| else count + 1)
        && start == if p.evicted then [] else before
      modifies this`replies
      ensures count == |messages| == |old(replies)| && before == Conversation(template, messages, old(replies)) ==> Tracks()
    {
      var p := Prepare(template, messages, count, contextLen, prompt);
      var reply := fwd.transcript[|start + ids|..];
      var all := (if p.evicted then Silence(|p.messages| - 1) else replies) + [reply];
      assert fwd.transcript == start + ids + reply;
      if count == |messages| == |replies| && before == Conversation(template, messages, replies) {
        StillTracks(template, messages, replies, contextLen, prompt, reply);
      }
      replies := all;
    }
  }

  function Limit(maxTokens: int): nat {
    if maxTokens < 1 then 1 else maxTokens
  }

  /** A turn on a cache that holds the conversation leaves one that holds the longer conversation. */
  lemma StillTracks(template: Template, messages: seq<Message>, replies: seq<seq<int>>, contextLen: nat, prompt: Message, reply: seq<int>)
    requires |messages| == |replies|
    ensures var p := Prepare(template, messages, |messages|, contextLen, prompt);
      var start := if p.evicted then [] else Conversation(template, messages, replies);
      var all := (if p.evicted then Silence(|p.messages| - 1) else replies) + [reply];
      |all| == |p.messages| && Conversation(template, p.messages, all) == start + p.ids + reply
  {
    var p := Prepare(template, messages, |messages|, contextLen, prompt);
    if p.evicted {
      EvictedTracks(template, messages, contextLen, prompt, reply, p);
    } else {
      ConversationSnoc(template, messages, replies, prompt, reply);
      assert p.messages == messages + [prompt];
      assert p.ids == if messages == [] then template.first(prompt) else template.followup(prompt);
    }
  }

  lemma EvictedTracks(template: Template, messages: seq<Message>, contextLen: nat, prompt: Message, reply: seq<int>, p: Prepared)
    requires p == Prepare(template, messages, |messages|, contextLen, prompt) && p.evicted
    ensures p.messages != [] && Conversation(template, p.messages, Silence(|p.messages| - 1) + [reply]) == [] + p.ids + reply
  {
    EvictedRetells(template, messages, |messages|, contextLen, prompt);
    SilentSnoc(template, p.messages, reply);
    assert [] + p.ids == p.ids;
  }
}
