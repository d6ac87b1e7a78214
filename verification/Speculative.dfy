/** Self-speculative decoding against plain greedy decoding. The network is any function of
    the key-value cache; a cache entry records the token, its position and the number of
    experts it was routed to, since drafts and verification differ only in that number. */
module Speculative {

  type Token = int

  datatype Entry = Entry(token: Token, position: nat, topK: nat)

  /** The arg-max token after the last cache entry. */
  type Model = seq<Entry> -> Token

  /** Cache entries for `tokens` from `position` on, all routed to `topK` experts. */
  function Entries(tokens: seq<Token>, position: nat, topK: nat): (entries: seq<Entry>)
    ensures |entries| == |tokens|
  {
    seq(|tokens|, i requires 0 <= i < |tokens| => Entry(tokens[i], position + i, topK))
  }

  lemma EntriesConcat(a: seq<Token>, b: seq<Token>, position: nat, topK: nat)
    ensures Entries(a + b, position, topK) == Entries(a, position, topK) + Entries(b, position + |a|, topK)
  {
  }

  // ---------------------------------------------------------------- the runtime objects

  class KvCache {
    var entries: seq<Entry>

    constructor ()
      ensures entries == []
    {
      entries := [];
    }

    /** A negative length counts from the end. */
    method Crop(maxLength: int)
      requires -|entries| <= maxLength
      modifies this
      ensures
        var keep := if maxLength < 0 then |old(entries)| + maxLength else maxLength;
        entries == if |old(entries)| <= keep then old(entries) else old(entries)[..keep]
    {
      var keep := if maxLength < 0 then |entries| + maxLength else maxLength;
      if |entries| > keep {
        entries := entries[..keep];
      }
    }
  }

  class Runner {
    const model: Model
    /** The routing width of every resident layer's gate. */
    var topK: nat

    constructor (model: Model, topK: nat)
      ensures this.model == model && this.topK == topK
    {
      this.model, this.topK := model, topK;
    }

    method Run(token: Token, position: nat, cache: KvCache) returns (next: Token)
      modifies cache
      ensures cache.entries == old(cache.entries) + [Entry(token, position, topK)]
      ensures next == model(cache.entries)
    {
      cache.entries := cache.entries + [Entry(token, position, topK)];
      next := model(cache.entries);
    }
  }

  // ---------------------------------------------------------------- one speculative round

  /** `out` is what the model says, token after token, when `current` follows `base` and
      every pass routes to `topK` experts. */
  ghost predicate IsChain(model: Model, topK: nat, base: seq<Entry>, position: nat, current: Token, out: seq<Token>) {
    forall i :: 0 <= i < |out| ==> out[i] == model(base + Entries([current] + out[..i], position, topK))
  }

  lemma ChainExtends(model: Model, topK: nat, base: seq<Entry>, position: nat, current: Token, out: seq<Token>,
                     next: Token)
    requires IsChain(model, topK, base, position, current, out)
    requires next == model(base + Entries([current] + out, position, topK))
    ensures IsChain(model, topK, base, position, current, out + [next])
  {
    var longer := out + [next];
    forall i | 0 <= i < |longer| ensures longer[i] == model(base + Entries([current] + longer[..i], position, topK)) {
      assert longer[..i] == out[..i];
      if i == |out| {
        assert out[..i] == out;
      }
    }
  }

  class SpeculativeMoEDecoder {
    const runner: Runner
    const specK: nat
    const draftTopK: nat
    const origTopK: nat
    var totalDrafted: nat
    var totalAccepted: nat

    ghost predicate Valid()
      reads this, runner
    {
      specK >= 1 && runner.topK == origTopK && runner as object != this
    }

    constructor (runner: Runner, specK: int, draftTopK: int)
      ensures Valid() && this.runner == runner && this.origTopK == runner.topK
      ensures this.specK == (if specK < 1 then 1 else specK)
      ensures this.draftTopK == (if draftTopK < 1 then 1 else draftTopK)
      ensures totalDrafted == 0 && totalAccepted == 0
    {
      this.runner := runner;
      this.specK := if specK < 1 then 1 else specK;
      this.draftTopK := if draftTopK < 1 then 1 else draftTopK;
      origTopK := runner.topK;
      totalDrafted, totalAccepted := 0, 0;
    }

    /** Draft with narrow routing, crop the drafts' entries away, then verify. The cache is
        left as the target alone would have left it; so is the routing width. */
    method GenerateStep(currentToken: Token, position: nat, cache: KvCache)
      returns (accepted: seq<Token>, drafts: seq<Token>)
      requires Valid() && cache as object != this && cache as object != runner
      modifies this, runner, cache
      ensures Valid()
      ensures |drafts| == specK && IsChain(runner.model, draftTopK, old(cache.entries), position, currentToken, drafts)
      ensures 1 <= |accepted| <= specK + 1
      ensures IsChain(runner.model, origTopK, old(cache.entries), position, currentToken, accepted)
      ensures cache.entries ==
        old(cache.entries) + Entries([currentToken] + accepted[..|accepted| - 1], position, origTopK)
      ensures accepted[..|accepted| - 1] == drafts[..|accepted| - 1]
      ensures |accepted| <= specK ==> accepted[|accepted| - 1] != drafts[|accepted| - 1]
      ensures totalDrafted == old(totalDrafted) + |drafts| && totalAccepted == old(totalAccepted) + |accepted|
    {
      drafts := Draft(currentToken, position, cache);
      accepted := Verify(currentToken, position, cache, drafts);
      totalDrafted := totalDrafted + |drafts|;
      totalAccepted := totalAccepted + |accepted|;
    }

    /** The draft phase, with its clean-up. */
    method Draft(currentToken: Token, position: nat, cache: KvCache) returns (drafts: seq<Token>)
      requires Valid() && cache as object != this && cache as object != runner
      modifies runner, cache
      ensures Valid() && cache.entries == old(cache.entries)
      ensures |drafts| == specK && IsChain(runner.model, draftTopK, old(cache.entries), position, currentToken, drafts)
    {
      ghost var base := cache.entries;
      runner.topK := draftTopK;
      drafts := [];
      var currId := currentToken;
      for step := 0 to specK
        invariant runner.topK == draftTopK && |drafts| == step
        invariant currId == ([currentToken] + drafts)[step]
        invariant cache.entries == base + Entries(([currentToken] + drafts)[..step], position, draftTopK)
        invariant IsChain(runner.model, draftTopK, base, position, currentToken, drafts)
      {
        var next := runner.Run(currId, position + step, cache);
        assert ([currentToken] + drafts)[..step] + [currId] == [currentToken] + drafts;
        EntriesConcat(([currentToken] + drafts)[..step], [currId], position, draftTopK);
        assert cache.entries == base + Entries([currentToken] + drafts, position, draftTopK);
        ChainExtends(runner.model, draftTopK, base, position, currentToken, drafts, next);
        assert ([currentToken] + (drafts + [next]))[..step + 1] == [currentToken] + drafts;
        drafts := drafts + [next];
        currId := next;
      }
      cache.Crop(-|drafts|);
      runner.topK := origTopK;
    }

    /** The verification phase: the longest agreeing prefix, then the target's own token. */
    method Verify(currentToken: Token, position: nat, cache: KvCache, drafts: seq<Token>) returns (accepted: seq<Token>)
      requires Valid() && cache as object != this && cache as object != runner && |drafts| == specK
      modifies cache
      ensures 1 <= |accepted| <= specK + 1
      ensures IsChain(runner.model, origTopK, old(cache.entries), position, currentToken, accepted)
      ensures cache.entries ==
        old(cache.entries) + Entries([currentToken] + accepted[..|accepted| - 1], position, origTopK)
      ensures accepted[..|accepted| - 1] == drafts[..|accepted| - 1]
      ensures |accepted| <= specK ==> accepted[|accepted| - 1] != drafts[|accepted| - 1]
    {
      ghost var base := cache.entries;
      accepted := [];
      var currVerifyId := currentToken;
      for i := 0 to |drafts|
        invariant IsChain(runner.model, origTopK, base, position, currentToken, accepted)
        invariant i < |drafts| ==> accepted == drafts[..i] && currVerifyId == ([currentToken] + accepted)[i]
        invariant i < |drafts| ==> cache.entries == base + Entries(([currentToken] + accepted)[..i], position, origTopK)
        invariant i == |drafts| ==> |accepted| == |drafts| + 1 && accepted[..|drafts|] == drafts
        invariant i == |drafts| ==> cache.entries == base + Entries([currentToken] + drafts, position, origTopK)
      {
        var targetNext := RunTarget(currVerifyId, position + i, cache, base, position, [currentToken] + accepted);
        ChainExtends(runner.model, origTopK, base, position, currentToken, accepted, targetNext);
        if targetNext == drafts[i] {
          accepted := accepted + [targetNext];
          currVerifyId := targetNext;
          assert ([currentToken] + accepted)[..i + 1] == [currentToken] + drafts[..i];
          if i == |drafts| - 1 {
            var bonus := RunTarget(currVerifyId, position + i + 1, cache, base, position, [currentToken] + accepted);
            ChainExtends(runner.model, origTopK, base, position, currentToken, accepted, bonus);
            accepted := accepted + [bonus];
            assert accepted[..|drafts|] == drafts;
          }
        } else {
          accepted := accepted + [targetNext];
          assert accepted[..|accepted| - 1] == drafts[..i];
          return;
        }
      }
    }

    /** One target pass over the last of `tokens`, all earlier ones being cached after `base`. */
    method RunTarget(token: Token, position: nat, cache: KvCache, ghost base: seq<Entry>, ghost start: nat,
                     ghost tokens: seq<Token>)
      returns (next: Token)
      requires Valid() && |tokens| >= 1 && tokens[|tokens| - 1] == token && position == start + |tokens| - 1
      requires cache.entries == base + Entries(tokens[..|tokens| - 1], start, origTopK)
      modifies cache
      ensures cache.entries == base + Entries(tokens, start, origTopK)
      ensures next == runner.model(cache.entries)
    {
      EntriesConcat(tokens[..|tokens| - 1], [token], start, origTopK);
      assert tokens == tokens[..|tokens| - 1] + [token];
      next := runner.Run(token, position, cache);
    }
  }

  // ---------------------------------------------------------------- what greedy decoding means

  /** The target's next token after `history`. */
  ghost function NextToken(model: Model, topK: nat, history: seq<Token>): Token {
    model(Entries(history, 0, topK))
  }

  /** Each token is the target's choice after the prompt and the tokens before it. */
  ghost predicate IsGreedy(model: Model, topK: nat, prompt: seq<Token>, out: seq<Token>) {
    forall i :: 0 <= i < |out| ==> out[i] == NextToken(model, topK, prompt + out[..i])
  }

  ghost predicate NoneIn(out: seq<Token>, eos: set<Token>) {
    forall i :: 0 <= i < |out| ==> out[i] !in eos
  }

  /** The complete greedy answer: it stops at the budget or just before an end token. */
  ghost predicate IsGreedyAnswer(model: Model, topK: nat, prompt: seq<Token>, eos: set<Token>, maxNew: int,
                                 out: seq<Token>) {
    && IsGreedy(model, topK, prompt, out) && NoneIn(out, eos)
    && if maxNew <= 0 then out == []
       else |out| == maxNew || (|out| < maxNew && NextToken(model, topK, prompt + out) in eos)
  }

  lemma {:induction false} GreedyIsPrefixClosed(model: Model, topK: nat, prompt: seq<Token>, a: seq<Token>,
                                                b: seq<Token>, n: nat)
    requires IsGreedy(model, topK, prompt, a) && IsGreedy(model, topK, prompt, b)
    requires n <= |a| && n <= |b|
    ensures a[..n] == b[..n]
  {
    if n > 0 {
      GreedyIsPrefixClosed(model, topK, prompt, a, b, n - 1);
      assert a[n - 1] == NextToken(model, topK, prompt + a[..n - 1]) == b[n - 1];
      assert a[..n] == a[..n - 1] + [a[n - 1]] && b[..n] == b[..n - 1] + [b[n - 1]];
    }
  }

  lemma GreedyAnswerIsUnique(model: Model, topK: nat, prompt: seq<Token>, eos: set<Token>, maxNew: int, a: seq<Token>,
                             b: seq<Token>)
    requires IsGreedyAnswer(model, topK, prompt, eos, maxNew, a) && IsGreedyAnswer(model, topK, prompt, eos, maxNew, b)
    ensures a == b
  {
    var short, long := if |a| <= |b| then a else b, if |a| <= |b| then b else a;
    GreedyIsPrefixClosed(model, topK, prompt, short, long, |short|);
    assert short[..|short|] == short;
  }

  lemma GreedyExtends(model: Model, topK: nat, prompt: seq<Token>, out: seq<Token>, next: Token)
    requires IsGreedy(model, topK, prompt, out) && next == NextToken(model, topK, prompt + out)
    ensures IsGreedy(model, topK, prompt, out + [next])
  {
    var longer := out + [next];
    forall i | 0 <= i < |longer| ensures longer[i] == NextToken(model, topK, prompt + longer[..i]) {
      assert longer[..i] == out[..i];
      if i == |out| {
        assert out[..i] == out;
      }
    }
  }

  // ---------------------------------------------------------------- the two decode loops

  /** Prefill, shared by both modes. */
  method Prefill(runner: Runner, cache: KvCache, prompt: seq<Token>) returns (next: Token)
    requires prompt != [] && cache.entries == []
    modifies cache
    ensures cache.entries == Entries(prompt, 0, runner.topK)
    ensures next == NextToken(runner.model, runner.topK, prompt)
  {
    next := 0;
    for pos := 0 to |prompt|
      invariant cache.entries == Entries(prompt[..pos], 0, runner.topK)
      invariant pos > 0 ==> next == runner.model(cache.entries)
    {
      next := runner.Run(prompt[pos], pos, cache);
      EntriesConcat(prompt[..pos], [prompt[pos]], 0, runner.topK);
      assert prompt[..pos + 1] == prompt[..pos] + [prompt[pos]];
    }
    assert prompt[..|prompt|] == prompt;
  }

  method DecodeGreedy(runner: Runner, prompt: seq<Token>, eos: set<Token>, maxNew: int) returns (generated: seq<Token>)
    requires prompt != []
    ensures IsGreedyAnswer(runner.model, runner.topK, prompt, eos, maxNew, generated)
  {
    var cache := new KvCache();
    var next := Prefill(runner, cache, prompt);
    generated := [];
    assert prompt + generated == prompt;
    var step := 0;
    while step < maxNew
      invariant 0 <= step && (step <= maxNew || (maxNew < 0 && step == 0)) && |generated| == step
      invariant IsGreedy(runner.model, runner.topK, prompt, generated) && NoneIn(generated, eos)
      invariant cache.entries == Entries(prompt + generated, 0, runner.topK)
      invariant next == runner.model(cache.entries)
    {
      if next in eos {
        break;
      }
      GreedyExtends(runner.model, runner.topK, prompt, generated, next);
      ghost var before := prompt + generated;
      generated := generated + [next];
      if step == maxNew - 1 {
        break;
      }
      EntriesConcat(before, [next], 0, runner.topK);
      assert prompt + generated == before + [next];
      next := runner.Run(next, |prompt| + step, cache);
      step := step + 1;
    }
  }

  /** Appending to an empty list's last element is an error in the source. */
  datatype Decoded = Tokens(ids: seq<Token>) | IndexError

  /** What the speculative loop produces, whatever it drafts. */
  ghost predicate IsSpeculativeResult(model: Model, topK: nat, prompt: seq<Token>, eos: set<Token>, maxNew: int,
                                      result: Decoded) {
    var first := NextToken(model, topK, prompt);
    if first in eos then result == if maxNew >= 1 then IndexError else Tokens([])
    else if maxNew <= 0 then result == Tokens([first])
    else result.Tokens? && IsGreedyAnswer(model, topK, prompt, eos, maxNew, result.ids)
  }

  /** The part of an accepted run that the loop keeps is greedy text. */
  lemma ChainIsGreedy(model: Model, topK: nat, prompt: seq<Token>, generated: seq<Token>, accepted: seq<Token>, n: nat)
    requires generated != [] && n < |accepted| && IsGreedy(model, topK, prompt, generated + accepted[..n])
    requires
      var before := prompt + generated[..|generated| - 1];
      IsChain(model, topK, Entries(before, 0, topK), |before|, generated[|generated| - 1], accepted)
    ensures accepted[n] == NextToken(model, topK, prompt + (generated + accepted[..n]))
    ensures IsGreedy(model, topK, prompt, generated + accepted[..n + 1])
  {
    var before, current := prompt + generated[..|generated| - 1], generated[|generated| - 1];
    EntriesConcat(before, [current] + accepted[..n], 0, topK);
    assert before + ([current] + accepted[..n]) == prompt + (generated + accepted[..n]);
    GreedyExtends(model, topK, prompt, generated + accepted[..n], accepted[n]);
    assert generated + accepted[..n] + [accepted[n]] == generated + accepted[..n + 1];
  }

  method DecodeSpeculative(runner: Runner, prompt: seq<Token>, eos: set<Token>, maxNew: int, specK: int)
    returns (result: Decoded)
    requires prompt != []
    modifies runner
    ensures runner.topK == old(runner.topK)
    ensures IsSpeculativeResult(runner.model, runner.topK, prompt, eos, maxNew, result)
  {
    var cache := new KvCache();
    var currTok := Prefill(runner, cache, prompt);
    var decoder := new SpeculativeMoEDecoder(runner, specK, 1);
    ghost var topK := runner.topK;
    var generated: seq<Token> := [];
    if currTok !in eos {
      assert prompt + [] == prompt;
      generated := [currTok];
    }
    while |generated| < maxNew
      invariant fresh(decoder) && fresh(cache) && decoder.runner == runner && decoder.Valid()
      invariant decoder.origTopK == topK
      invariant if currTok in eos then generated == [] else generated != []
      invariant maxNew <= 0 ==> |generated| <= 1
      invariant |generated| <= maxNew || |generated| <= 1
      invariant IsGreedy(runner.model, topK, prompt, generated) && NoneIn(generated, eos)
      invariant generated != [] && |generated| < maxNew ==>
        cache.entries == Entries(prompt + generated[..|generated| - 1], 0, topK)
      decreases maxNew - |generated|
    {
      if generated == [] {
        return IndexError;
      }
      var pos := |prompt| + |generated| - 1;
      var accepted, drafts := decoder.GenerateStep(generated[|generated| - 1], pos, cache);
      var longer, hitEos := Accept(runner.model, topK, prompt, eos, maxNew, generated, accepted);
      if |longer| < maxNew && !hitEos {
        AcceptedEntries(prompt, generated, accepted, topK);
      }
      generated := longer;
      if hitEos {
        break;
      }
    }
    result := Tokens(generated);
  }

  lemma AcceptedEntries(prompt: seq<Token>, generated: seq<Token>, accepted: seq<Token>, topK: nat)
    requires generated != [] && accepted != []
    ensures
      var before := prompt + generated[..|generated| - 1];
      Entries(before, 0, topK) + Entries([generated[|generated| - 1]] + accepted[..|accepted| - 1], |before|, topK) ==
        Entries(prompt + (generated + accepted)[..|generated| + |accepted| - 1], 0, topK)
  {
    var before := prompt + generated[..|generated| - 1];
    var after := [generated[|generated| - 1]] + accepted[..|accepted| - 1];
    EntriesConcat(before, after, 0, topK);
    assert before + after == prompt + (generated + accepted)[..|generated| + |accepted| - 1];
  }

  /** The inner loop over the accepted tokens: emit up to the budget, stop before an end token. */
  method Accept(ghost model: Model, ghost topK: nat, ghost prompt: seq<Token>, eos: set<Token>, maxNew: int,
                generated: seq<Token>, accepted: seq<Token>) returns (longer: seq<Token>, hitEos: bool)
    requires generated != [] && |generated| < maxNew && accepted != []
    requires IsGreedy(model, topK, prompt, generated) && NoneIn(generated, eos)
    requires
      var before := prompt + generated[..|generated| - 1];
      IsChain(model, topK, Entries(before, 0, topK), |before|, generated[|generated| - 1], accepted)
    ensures IsGreedy(model, topK, prompt, longer) && NoneIn(longer, eos) && |generated| <= |longer| <= maxNew
    ensures hitEos ==> |longer| < maxNew && NextToken(model, topK, prompt + longer) in eos
    ensures !hitEos && |longer| < maxNew ==> longer == generated + accepted
  {
    longer, hitEos := generated, false;
    assert generated + accepted[..0] == generated;
    for i := 0 to |accepted|
      invariant longer == generated + accepted[..i] && |longer| < maxNew
      invariant IsGreedy(model, topK, prompt, longer) && NoneIn(longer, eos)
    {
      ChainIsGreedy(model, topK, prompt, generated, accepted, i);
      if accepted[i] in eos {
        hitEos := true;
        return;
      }
      assert generated + accepted[..i + 1] == longer + [accepted[i]];
      longer := longer + [accepted[i]];
      if |longer| >= maxNew {
        return;
      }
    }
    assert accepted[..|accepted|] == accepted;
  }

  /** Speculation gives the greedy answer exactly when the budget is positive and the first
      token is not an end token, or neither. With a positive budget and an end token first
      the loop indexes an empty list; with no budget it emits the first token regardless. */
  lemma SpeculationPreservesMeaning(model: Model, topK: nat, prompt: seq<Token>, eos: set<Token>, maxNew: int,
                                    speculative: Decoded, greedy: seq<Token>)
    requires IsSpeculativeResult(model, topK, prompt, eos, maxNew, speculative)
    requires IsGreedyAnswer(model, topK, prompt, eos, maxNew, greedy)
    ensures speculative == Tokens(greedy) <==> (maxNew >= 1 <==> NextToken(model, topK, prompt) !in eos)
  {
    if maxNew >= 1 && NextToken(model, topK, prompt) !in eos {
      GreedyAnswerIsUnique(model, topK, prompt, eos, maxNew, speculative.ids, greedy);
    }
  }
}
