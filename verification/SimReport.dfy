/** The simulator's replay loop: which order it replays a routing trace in, and what its
    miss counts say about one another. */
module SimReport {
  import opened Collections
  import opened ReplacementTheory
  import opened SimCache
  import opened TinyTheory

  datatype RoutingEvent = RoutingEvent(tokenId: int, key: Key)

  function TracePairs(events: seq<RoutingEvent>): (keys: seq<Key>)
    ensures |keys| == |events| && forall i :: 0 <= i < |events| ==> keys[i] == events[i].key
  {
    seq(|events|, i requires 0 <= i < |events| => events[i].key)
  }

  // ---------------------------------------------------------------- replay order

  function WithToken(events: seq<RoutingEvent>, token: int): seq<RoutingEvent> {
    if events == [] then []
    else if events[0].tokenId == token then [events[0]] + WithToken(events[1..], token)
    else WithToken(events[1..], token)
  }

  lemma {:induction false} WithTokenConcat(a: seq<RoutingEvent>, b: seq<RoutingEvent>, token: int)
    ensures WithToken(a + b, token) == WithToken(a, token) + WithToken(b, token)
  {
    if a == [] {
      assert a + b == b;
    } else {
      assert (a + b)[1..] == a[1..] + b;
      WithTokenConcat(a[1..], b, token);
    }
  }

  ghost predicate Nondecreasing(events: seq<RoutingEvent>) {
    forall i, j :: 0 <= i < j < |events| ==> events[i].tokenId <= events[j].tokenId
  }

  /** `order` is `events` grouped by token: tokens ascend, and each token's events keep
      their order. */
  ghost predicate IsGrouping(events: seq<RoutingEvent>, order: seq<RoutingEvent>) {
    Nondecreasing(order) && forall token :: WithToken(order, token) == WithToken(events, token)
  }

  lemma {:induction false} WithTokenFinds(events: seq<RoutingEvent>, i: nat)
    requires i < |events|
    ensures WithToken(events, events[i].tokenId) != []
  {
    if i > 0 {
      WithTokenFinds(events[1..], i - 1);
    }
  }

  lemma {:induction false} WithTokenHolds(events: seq<RoutingEvent>, token: int)
    ensures forall e :: e in WithToken(events, token) ==> e in events && e.tokenId == token
  {
    if events != [] {
      WithTokenHolds(events[1..], token);
    }
  }

  /** The first token of one grouping is no later than that of another. */
  lemma HeadsAgree(a: seq<RoutingEvent>, b: seq<RoutingEvent>)
    requires a != [] && IsGrouping(a, b) && Nondecreasing(a)
    ensures b != [] && b[0].tokenId <= a[0].tokenId
  {
    WithTokenFinds(a, 0);
    WithTokenHolds(b, a[0].tokenId);
    assert WithToken(b, a[0].tokenId) == WithToken(a, a[0].tokenId);
    assert WithToken(b, a[0].tokenId)[0] in b;
  }

  lemma {:induction false} GroupingIsUnique(a: seq<RoutingEvent>, b: seq<RoutingEvent>)
    requires Nondecreasing(a) && IsGrouping(a, b)
    ensures a == b
  {
    if a == [] {
      if b != [] {
        HeadsAgree(b, a);
      }
    } else {
      HeadsAgree(a, b);
      HeadsAgree(b, a);
      assert WithToken(a, a[0].tokenId) == WithToken(b, a[0].tokenId);
      assert a[0] == WithToken(a, a[0].tokenId)[0] == b[0];
      forall token ensures WithToken(b[1..], token) == WithToken(a[1..], token) {
        assert WithToken(b, token) == WithToken(a, token);
        if token == a[0].tokenId {
          assert WithToken(a[1..], token) == WithToken(a, token)[1..];
          assert WithToken(b[1..], token) == WithToken(b, token)[1..];
        }
      }
      GroupingIsUnique(a[1..], b[1..]);
      assert a == [a[0]] + a[1..] && b == [b[0]] + b[1..];
    }
  }

  /** The replay visits the events in trace order, so that its step counter is the trace
      index, exactly when token ids never decrease. */
  lemma ReplayOrderIsTraceOrder(events: seq<RoutingEvent>, order: seq<RoutingEvent>)
    requires IsGrouping(events, order)
    ensures order == events <==> Nondecreasing(events)
  {
    if Nondecreasing(events) {
      GroupingIsUnique(events, order);
    }
  }

  function Group(eventsByToken: map<int, seq<RoutingEvent>>, token: int): seq<RoutingEvent> {
    if token in eventsByToken then eventsByToken[token] else []
  }

  /** `events_by_token`, built with `setdefault(...).append(...)`. */
  method CollectByToken(events: seq<RoutingEvent>) returns (eventsByToken: map<int, seq<RoutingEvent>>)
    ensures forall token :: Group(eventsByToken, token) == WithToken(events, token)
  {
    eventsByToken := map[];
    for i := 0 to |events|
      invariant forall token :: Group(eventsByToken, token) == WithToken(events[..i], token)
    {
      var e := events[i];
      ghost var before := eventsByToken;
      eventsByToken := eventsByToken[e.tokenId := Group(eventsByToken, e.tokenId) + [e]];
      forall token ensures Group(eventsByToken, token) == WithToken(events[..i + 1], token) {
        assert Group(before, token) == WithToken(events[..i], token);
        assert events[..i + 1] == events[..i] + [e];
        WithTokenConcat(events[..i], [e], token);
        assert WithToken([e], token) == if e.tokenId == token then [e] else [];
      }
    }
    assert events[..|events|] == events;
  }

  ghost predicate AllBefore(order: seq<RoutingEvent>, token: int) {
    forall e :: e in order ==> e.tokenId < token
  }

  ghost predicate HoldsGroup(events: seq<RoutingEvent>, order: seq<RoutingEvent>, remaining: set<int>, token: int) {
    WithToken(order, token) == if token in remaining then [] else WithToken(events, token)
  }

  /** `order` holds the groups of every token not `remaining`, and nothing else. */
  ghost predicate GroupedSoFar(events: seq<RoutingEvent>, order: seq<RoutingEvent>, remaining: set<int>) {
    && Nondecreasing(order)
    && (forall token :: token in remaining ==> AllBefore(order, token))
    && forall token :: HoldsGroup(events, order, remaining, token)
  }

  /** `events_by_token` and the loop over its sorted items. */
  method GroupByToken(events: seq<RoutingEvent>) returns (order: seq<RoutingEvent>)
    ensures IsGrouping(events, order)
  {
    var eventsByToken := CollectByToken(events);
    order := [];
    var remaining := eventsByToken.Keys;
    assert GroupedSoFar(events, order, remaining) by {
      forall token ensures HoldsGroup(events, order, remaining, token) {
        assert Group(eventsByToken, token) == WithToken(events, token);
      }
    }
    while remaining != {}
      invariant remaining <= eventsByToken.Keys && GroupedSoFar(events, order, remaining)
    {
      LeastExists(remaining);
      var token :| IsLeast(remaining, token);
      assert eventsByToken[token] == Group(eventsByToken, token) == WithToken(events, token);
      AppendGroup(events, order, remaining, token);
      remaining := remaining - {token};
      order := order + eventsByToken[token];
    }
    assert forall token :: HoldsGroup(events, order, remaining, token) ==>
      WithToken(order, token) == WithToken(events, token);
  }

  /** Appending the least remaining token's events disturbs no other token's. */
  lemma AppendGroup(events: seq<RoutingEvent>, order: seq<RoutingEvent>, remaining: set<int>, token: int)
    requires GroupedSoFar(events, order, remaining) && IsLeast(remaining, token)
    ensures GroupedSoFar(events, order + WithToken(events, token), remaining - {token})
  {
    var longer := order + WithToken(events, token);
    WithTokenHolds(events, token);
    forall later | later in remaining - {token} ensures AllBefore(longer, later) {
      AllBeforeConcat(order, WithToken(events, token), later);
    }
    forall other ensures HoldsGroup(events, longer, remaining - {token}, other) {
      assert HoldsGroup(events, order, remaining, other) && HoldsGroup(events, order, remaining, token);
      AppendGroupTokens(events, order, remaining, token, other);
    }
  }

  lemma AllBeforeConcat(a: seq<RoutingEvent>, b: seq<RoutingEvent>, token: int)
    requires AllBefore(a, token) && AllBefore(b, token)
    ensures AllBefore(a + b, token)
  {
  }

  lemma AppendGroupTokens(events: seq<RoutingEvent>, order: seq<RoutingEvent>, remaining: set<int>, token: int,
                          other: int)
    requires token in remaining
    requires HoldsGroup(events, order, remaining, token) && HoldsGroup(events, order, remaining, other)
    ensures HoldsGroup(events, order + WithToken(events, token), remaining - {token}, other)
  {
    hide WithToken;
    WithTokenHolds(events, token);
    WithTokenConcat(order, WithToken(events, token), other);
    WithTokenOfGroup(WithToken(events, token), token, other);
  }

  lemma {:induction false} WithTokenOfGroup(group: seq<RoutingEvent>, token: int, other: int)
    requires forall e :: e in group ==> e.tokenId == token
    ensures WithToken(group, other) == if other == token then group else []
  {
    if group != [] {
      assert group[0] in group && forall e :: e in group[1..] ==> e in group;
      WithTokenOfGroup(group[1..], token, other);
      assert group == [group[0]] + group[1..];
    }
  }

  // ---------------------------------------------------------------- replaying one policy

  /** What replaying the first `n` of `accesses` against an oracle built from `trace` may
      go through. */
  ghost predicate IsOracleReplay(trace: seq<Key>, capacity: nat, accesses: seq<Key>, n: nat,
                                 futures: seq<map<Key, seq<nat>>>, contents: seq<set<Key>>) {
    && n <= |accesses| && |futures| == |contents| == n + 1
    && Aligned(trace, 0, futures[0]) && contents[0] == {}
    && forall i :: 0 <= i < n ==>
      OracleReplayStep(capacity, accesses[i], i, futures[i], futures[i + 1], contents[i], contents[i + 1])
  }

  ghost predicate OracleReplayStep(capacity: nat, key: Key, step: nat, future: map<Key, seq<nat>>,
                                   future': map<Key, seq<nat>>, cache: set<Key>, cache': set<Key>) {
    future' == PopOccurrence(future, key, step) && OracleStep(capacity, future', cache, key, cache')
  }

  lemma {:induction false} MissesIgnoreLater(trace: seq<Key>, contents: seq<set<Key>>, later: set<Key>, n: nat)
    requires n <= |trace| && n <= |contents|
    ensures MissesUpTo(trace, contents + [later], n) == MissesUpTo(trace, contents, n)
  {
    if n > 0 {
      MissesIgnoreLater(trace, contents, later, n - 1);
    }
  }

  lemma OracleReplayExtends(trace: seq<Key>, capacity: nat, accesses: seq<Key>, n: nat,
                            futures: seq<map<Key, seq<nat>>>, contents: seq<set<Key>>, future: map<Key, seq<nat>>,
                            cache: set<Key>)
    requires n < |accesses| && IsOracleReplay(trace, capacity, accesses, n, futures, contents)
    requires OracleReplayStep(capacity, accesses[n], n, futures[n], future, contents[n], cache)
    ensures IsOracleReplay(trace, capacity, accesses, n + 1, futures + [future], contents + [cache])
    ensures MissesUpTo(accesses, contents + [cache], n + 1) ==
      MissesUpTo(accesses, contents, n) + if accesses[n] in contents[n] then 0 else 1
  {
    MissesIgnoreLater(accesses, contents, cache, n);
    var fs, cs := futures + [future], contents + [cache];
    forall i | 0 <= i < n + 1 ensures OracleReplayStep(capacity, accesses[i], i, fs[i], fs[i + 1], cs[i], cs[i + 1]) {
      if i < n {
        assert OracleReplayStep(capacity, accesses[i], i, futures[i], futures[i + 1], contents[i], contents[i + 1]);
      }
    }
  }

  /** Aggregate counters of one policy's replay. */
  datatype PolicyMetric = PolicyMetric(hits: nat, misses: nat)

  /** `contents` witnesses that an oracle built from `trace` missed `misses` times. */
  ghost predicate OracleMayMiss(trace: seq<Key>, capacity: nat, accesses: seq<Key>, misses: nat) {
    exists futures, contents ::
      && IsOracleReplay(trace, capacity, accesses, |accesses|, futures, contents)
      && misses == Misses(accesses, contents)
  }

  method ReplayOracle(trace: seq<Key>, accesses: seq<Key>, capacitySlots: int) returns (metric: PolicyMetric)
    ensures metric.hits + metric.misses == |accesses|
    ensures OracleMayMiss(trace, SlotCount(capacitySlots), accesses, metric.misses)
  {
    var policy := new OracleCache(capacitySlots, trace);
    ghost var capacity := SlotCount(capacitySlots);
    ghost var futures, contents := [policy.futureIndices], [policy.cache];
    for step := 0 to |accesses|
      invariant fresh(policy) && policy.Valid() && policy.capacity == capacity
      invariant policy.hits + policy.misses == step
      invariant IsOracleReplay(trace, capacity, accesses, step, futures, contents)
      invariant futures[step] == policy.futureIndices && contents[step] == policy.cache
      invariant policy.misses == MissesUpTo(accesses, contents, step)
    {
      var hit := policy.Access(accesses[step], step);
      OracleReplayExtends(trace, capacity, accesses, step, futures, contents, policy.futureIndices, policy.cache);
      futures, contents := futures + [policy.futureIndices], contents + [policy.cache];
    }
    metric := PolicyMetric(policy.hits, policy.misses);
  }

  method ReplayLru(accesses: seq<Key>, capacitySlots: int) returns (metric: PolicyMetric)
    ensures metric.hits + metric.misses == |accesses|
    ensures metric.misses == LruMisses(SlotCount(capacitySlots), accesses)
  {
    var policy := new LruCache(capacitySlots);
    ghost var contents := LruContents(SlotCount(capacitySlots), accesses);
    for step := 0 to |accesses|
      invariant fresh(policy) && policy.Valid() && policy.capacity == SlotCount(capacitySlots)
      invariant policy.hits + policy.misses == step
      invariant policy.cache == LruAt(SlotCount(capacitySlots), accesses, step)
      invariant policy.misses == MissesUpTo(accesses, contents, step)
    {
      ReplayStep(LruPolicy(policy.capacity), LruHolds, [], accesses, step);
      var hit := policy.Access(accesses[step]);
    }
    metric := PolicyMetric(policy.hits, policy.misses);
  }

  method ReplaySlru(accesses: seq<Key>, capacitySlots: int) returns (metric: PolicyMetric)
    ensures metric.hits + metric.misses == |accesses|
    ensures metric.misses == SlruMisses(capacitySlots, accesses)
  {
    var policy := new SlruCache(capacitySlots);
    ghost var contents := SlruContents(capacitySlots, accesses);
    ghost var next := SlruPolicy(policy.probationaryCap, policy.protectedCap);
    for step := 0 to |accesses|
      invariant fresh(policy) && policy.Valid()
      invariant policy.hits + policy.misses == step
      invariant policy.State() == StateAt(next, Segments([], []), accesses, step)
      invariant policy.misses == MissesUpTo(accesses, contents, step)
    {
      ReplayStep(next, SlruHolds, Segments([], []), accesses, step);
      var hit := policy.Access(accesses[step]);
    }
    metric := PolicyMetric(policy.hits, policy.misses);
  }

  method ReplayTinyLfu(accesses: seq<Key>, capacitySlots: int, window: nat) returns (metric: PolicyMetric)
    ensures metric.hits + metric.misses == |accesses|
    ensures metric.misses == TinyMisses(SlotCount(capacitySlots), window, accesses)
  {
    var policy := new TinyLfuCache(capacitySlots, window);
    ghost var contents := TinyContents(SlotCount(capacitySlots), window, accesses);
    ghost var next := TinyPolicy(SlotCount(capacitySlots), window);
    for step := 0 to |accesses|
      invariant fresh(policy) && policy.Valid() && policy.capacity == SlotCount(capacitySlots)
      invariant policy.window == window
      invariant policy.hits + policy.misses == step
      invariant policy.State() == StateAt(next, Tiny([], map[], 0), accesses, step)
      invariant policy.misses == MissesUpTo(accesses, contents, step)
    {
      ReplayStep(next, TinyHolds, Tiny([], map[], 0), accesses, step);
      var hit := policy.Access(accesses[step]);
    }
    metric := PolicyMetric(policy.hits, policy.misses);
  }

  // ---------------------------------------------------------------- the oracle as a bound

  lemma {:induction false} ReplayStaysAligned(trace: seq<Key>, capacity: nat, futures: seq<map<Key, seq<nat>>>,
                                              contents: seq<set<Key>>, n: nat)
    requires IsOracleReplay(trace, capacity, trace, |trace|, futures, contents) && n <= |trace|
    ensures Aligned(trace, n, futures[n])
  {
    if n > 0 {
      ReplayStaysAligned(trace, capacity, futures, contents, n - 1);
      PopKeepsAlignment(trace, n - 1, futures[n - 1]);
      assert OracleReplayStep(capacity, trace[n - 1], n - 1, futures[n - 1], futures[n], contents[n - 1], contents[n]);
    }
  }

  /** On a trace whose token ids never decrease, every replay of the oracle object is a run
      of Belady's policy, so its miss count is the optimum. */
  lemma ReplayIsBelady(events: seq<RoutingEvent>, order: seq<RoutingEvent>, capacity: nat,
                       futures: seq<map<Key, seq<nat>>>, contents: seq<set<Key>>)
    requires capacity >= 1 && Nondecreasing(events) && IsGrouping(events, order)
    requires IsOracleReplay(TracePairs(events), capacity, TracePairs(order), |order|, futures, contents)
    ensures Misses(TracePairs(order), contents) == OracleMisses(TracePairs(events), capacity)
  {
    ReplayOrderIsTraceOrder(events, order);
    var trace := TracePairs(events);
    forall i | 0 <= i < |trace| ensures BeladyStep(trace, capacity, i, contents[i], contents[i + 1]) {
      ReplayStaysAligned(trace, capacity, futures, contents, i + 1);
      assert OracleReplayStep(capacity, trace[i], i, futures[i], futures[i + 1], contents[i], contents[i + 1]);
      if trace[i] !in contents[i] && |contents[i]| >= capacity {
        var victim :|
          && LooksFurthest(futures[i + 1], contents[i], victim)
          && contents[i + 1] == contents[i] - {victim} + {trace[i]};
        LooksFurthestIsFurthest(trace, i + 1, futures[i + 1], contents[i], victim);
      }
    }
    TiesDoNotMatter(trace, capacity, contents);
  }

  /** Replay `events` through every policy. On token-ordered events the oracle's misses
      bound LRU's, segmented LRU's from two slots on, and TinyLFU's where it can reject no key
      or given one slot more. */
  method RunSimulation(events: seq<RoutingEvent>, capacitySlots: int, window: nat)
    returns (order: seq<RoutingEvent>, oracle: PolicyMetric, lru: PolicyMetric, slru: PolicyMetric,
             tinyLfu: PolicyMetric)
    ensures IsGrouping(events, order)
    ensures OracleMayMiss(TracePairs(events), SlotCount(capacitySlots), TracePairs(order), oracle.misses)
    ensures lru.misses == LruMisses(SlotCount(capacitySlots), TracePairs(order))
    ensures slru.misses == SlruMisses(capacitySlots, TracePairs(order))
    ensures tinyLfu.misses == TinyMisses(SlotCount(capacitySlots), window, TracePairs(order))
    ensures forall m :: m in {oracle, lru, slru, tinyLfu} ==> m.hits + m.misses == |events|
    ensures Nondecreasing(events) ==>
      && oracle.misses == OracleMisses(TracePairs(events), SlotCount(capacitySlots))
      && oracle.misses <= lru.misses
      && (capacitySlots >= 2 ==> oracle.misses <= slru.misses)
      && (!MayBypass(SlotCount(capacitySlots), window) ==> oracle.misses <= tinyLfu.misses)
      && OracleMisses(TracePairs(events), SlotCount(capacitySlots) + 1) <= tinyLfu.misses
  {
    order := GroupByToken(events);
    GroupingIsPermutation(events, order);
    oracle := ReplayOracle(TracePairs(events), TracePairs(order), capacitySlots);
    lru := ReplayLru(TracePairs(order), capacitySlots);
    slru := ReplaySlru(TracePairs(order), capacitySlots);
    tinyLfu := ReplayTinyLfu(TracePairs(order), capacitySlots, window);
    if Nondecreasing(events) {
      ReplayOrderIsTraceOrder(events, order);
      ghost var trace, capacity := TracePairs(events), SlotCount(capacitySlots);
      OracleMayMissIsMinimum(events, order, capacity, oracle.misses);
      OracleBoundsLru(trace, capacity);
      OracleBoundsSlru(capacitySlots);
      OracleBoundsTinyLfu(capacity, window);
      TinyIsSchedule(capacity, window, trace);
      OneMoreSlotCoversBypassing(trace, capacity, TinyContents(capacity, window, trace));
    }
  }

  lemma OracleMayMissIsMinimum(events: seq<RoutingEvent>, order: seq<RoutingEvent>, capacity: nat, misses: nat)
    requires capacity >= 1 && Nondecreasing(events) && IsGrouping(events, order)
    requires OracleMayMiss(TracePairs(events), capacity, TracePairs(order), misses)
    ensures misses == OracleMisses(TracePairs(events), capacity)
  {
    var futures, contents :|
      && IsOracleReplay(TracePairs(events), capacity, TracePairs(order), |order|, futures, contents)
      && misses == Misses(TracePairs(order), contents);
    ReplayIsBelady(events, order, capacity, futures, contents);
  }

  lemma {:induction false} CountWithToken(events: seq<RoutingEvent>, e: RoutingEvent)
    ensures multiset(events)[e] == multiset(WithToken(events, e.tokenId))[e]
  {
    if events != [] {
      CountWithToken(events[1..], e);
      assert events == [events[0]] + events[1..];
    }
  }

  /** Grouping by token neither drops nor repeats an event. */
  lemma GroupingIsPermutation(events: seq<RoutingEvent>, order: seq<RoutingEvent>)
    requires IsGrouping(events, order)
    ensures multiset(order) == multiset(events) && |order| == |events|
  {
    forall e ensures multiset(order)[e] == multiset(events)[e] {
      CountWithToken(events, e);
      CountWithToken(order, e);
      assert WithToken(order, e.tokenId) == WithToken(events, e.tokenId);
    }
    assert multiset(order) == multiset(events);
    assert |multiset(order)| == |order| && |multiset(events)| == |events|;
  }

  /** Segmented LRU never beats the oracle on any trace exactly when it has two slots or
      more: below that its two segments hold twice what the oracle may. */
  lemma OracleBoundsSlru(capacitySlots: int)
    ensures capacitySlots >= 2 <==>
      forall trace :: OracleMisses(trace, SlotCount(capacitySlots)) <= SlruMisses(capacitySlots, trace)
  {
    if capacitySlots >= 2 {
      forall trace ensures OracleMisses(trace, capacitySlots) <= SlruMisses(capacitySlots, trace) {
        SlruIsAdmitting(capacitySlots, trace);
        OracleIsOptimal(trace, capacitySlots, SlruContents(capacitySlots, trace));
      }
    } else {
      SlruBeatsOneSlot(capacitySlots);
    }
  }

  /** A single slot must hold the key just accessed. */
  lemma {:induction false} OneSlotOracleMisses(trace: seq<Key>, n: nat)
    requires n <= |trace|
    ensures MissesUpTo(trace, BeladyRun(trace, 1, |trace|), n) == Changes(trace, n)
    ensures n > 0 ==> BeladyRun(trace, 1, |trace|)[n] == {trace[n - 1]}
  {
    if n > 0 {
      var run := BeladyRun(trace, 1, |trace|);
      OneSlotOracleMisses(trace, n - 1);
      assert BeladyStep(trace, 1, n - 1, run[n - 1], run[n]);
    }
  }

  /** Accesses among the first `n` that differ from the one before. */
  ghost function Changes(trace: seq<Key>, n: nat): nat
    requires n <= |trace|
  {
    if n == 0 then 0 else Changes(trace, n - 1) + if n > 1 && trace[n - 2] == trace[n - 1] then 0 else 1
  }

  const A: Key := (0, 0)
  const B: Key := (0, 1)

  lemma SlruBeatsOneSlot(capacitySlots: int)
    requires capacitySlots < 2
    ensures exists trace :: OracleMisses(trace, 1) > SlruMisses(capacitySlots, trace)
  {
    var trace := [A, A, B, A, B];
    OracleMissesOnAlternation(trace);
    SlruMissesOnExample(trace);
    assert ProbationaryCap(capacitySlots) == 1 && ProtectedCap(capacitySlots) == 1;
    assert SlruMisses(capacitySlots, trace) == 2;
  }

  lemma OracleMissesOnAlternation(trace: seq<Key>)
    requires trace == [A, A, B, A, B]
    ensures OracleMisses(trace, 1) == 4
  {
    OneSlotOracleMisses(trace, 5);
    hide BeladyRun, BeladyStep, MissesUpTo;
    assert Changes(trace, 0) == 0;
    assert Changes(trace, 1) == 1;
    assert Changes(trace, 2) == 1;
    assert Changes(trace, 3) == 2;
    assert Changes(trace, 4) == 3;
  }

  lemma SlruMissesOnExample(trace: seq<Key>)
    requires trace == [A, A, B, A, B]
    ensures Misses(trace, Contents(SlruPolicy(1, 1), SlruHolds, Segments([], []), trace)) == 2
  {
    var next, s0 := SlruPolicy(1, 1), Segments([], []);
    ReplayStep(next, SlruHolds, s0, trace, 0);
    ReplayStep(next, SlruHolds, s0, trace, 1);
    ReplayStep(next, SlruHolds, s0, trace, 2);
    ReplayStep(next, SlruHolds, s0, trace, 3);
    ReplayStep(next, SlruHolds, s0, trace, 4);
  }
}
