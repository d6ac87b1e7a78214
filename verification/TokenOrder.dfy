/** When the oracle's lists tell the future: the replay order against the trace order. */
module TokenOrder {
  import opened Collections
  import opened ReplacementTheory
  import opened SimCache
  import opened LruTheory
  import opened TinyTheory
  import opened SimReport

  ghost predicate Ascends(tokens: seq<int>) {
    forall i, j :: 0 <= i < j < |tokens| ==> tokens[i] <= tokens[j]
  }

  /** `events` starts with the token ids `tokens` and goes on with ids that never decrease. */
  ghost predicate Continues(tokens: seq<int>, events: seq<RoutingEvent>) {
    && |tokens| <= |events|
    && (forall k :: 0 <= k < |tokens| ==> events[k].tokenId == tokens[k])
    && forall k, j :: 0 <= k < j < |events| && |tokens| <= j ==> events[k].tokenId <= events[j].tokenId
  }

  /** A replay of `events` may go through them as `order` and report `misses` for the oracle. */
  ghost predicate MayReport(events: seq<RoutingEvent>, capacity: nat, order: seq<RoutingEvent>, misses: nat) {
    IsGrouping(events, order) && OracleMayMiss(TracePairs(events), capacity, TracePairs(order), misses)
  }

  /** The oracle bounds LRU on every trace that starts with these token ids, whatever it routes to. */
  ghost predicate OracleBoundsLruOn(tokens: seq<int>, capacity: nat)
    requires capacity >= 1
  {
    forall events, order, misses: nat | Continues(tokens, events) && MayReport(events, capacity, order, misses) ::
      misses <= LruMisses(capacity, TracePairs(order))
  }

  /** However the replay breaks ties, the oracle misses more often than LRU. */
  ghost predicate LosesToLru(events: seq<RoutingEvent>, capacity: nat)
    requires capacity >= 1
  {
    && (exists order, misses: nat :: MayReport(events, capacity, order, misses))
    && forall order, misses: nat | MayReport(events, capacity, order, misses) ::
      misses > LruMisses(capacity, TracePairs(order))
  }

  // ---------------------------------------------------------------- a grouping and a replay exist

  lemma {:induction false} GroupsAppend(events: seq<RoutingEvent>, order: seq<RoutingEvent>, remaining: set<int>)
    returns (full: seq<RoutingEvent>)
    requires GroupedSoFar(events, order, remaining)
    ensures IsGrouping(events, full)
    decreases remaining
  {
    if remaining == {} {
      full := order;
      assert forall token :: HoldsGroup(events, order, remaining, token) ==>
        WithToken(order, token) == WithToken(events, token);
    } else {
      LeastExists(remaining);
      var token :| IsLeast(remaining, token);
      AppendGroup(events, order, remaining, token);
      full := GroupsAppend(events, order + WithToken(events, token), remaining - {token});
    }
  }

  lemma GroupingExists(events: seq<RoutingEvent>) returns (order: seq<RoutingEvent>)
    ensures IsGrouping(events, order)
  {
    var tokens := set e | e in events :: e.tokenId;
    forall token ensures HoldsGroup(events, [], tokens, token) {
      WithTokenHolds(events, token);
      if WithToken(events, token) != [] {
        assert WithToken(events, token)[0] in events;
      }
    }
    order := GroupsAppend(events, [], tokens);
  }

  function LastOf(s: seq<nat>): int
    requires s != []
  {
    s[|s| - 1]
  }

  lemma LooksFurthestExists(future: map<Key, seq<nat>>, cache: set<Key>) returns (victim: Key)
    requires cache != {}
    ensures LooksFurthest(future, cache, victim)
  {
    if unused :| unused in cache && Indices(future, unused) == [] {
      victim := unused;
    } else {
      var dues := set r | r in cache :: -LastOf(Indices(future, r));
      var some := SomeElement(cache);
      assert -LastOf(Indices(future, some)) in dues;
      LeastExists(dues);
      var least :| IsLeast(dues, least);
      victim :| victim in cache && -LastOf(Indices(future, victim)) == least;
      forall r | r in cache ensures LastOf(Indices(future, r)) <= LastOf(Indices(future, victim)) {
        assert -LastOf(Indices(future, r)) in dues;
      }
    }
  }

  lemma {:induction false} ReplayExists(trace: seq<Key>, capacity: nat, accesses: seq<Key>, n: nat)
    returns (futures: seq<map<Key, seq<nat>>>, contents: seq<set<Key>>)
    requires capacity >= 1 && n <= |accesses|
    ensures IsOracleReplay(trace, capacity, accesses, n, futures, contents)
  {
    if n == 0 {
      var future: map<Key, seq<nat>> := map key | key in Elements(trace) :: Remaining(trace, 0, key);
      futures, contents := [future], [{}];
    } else {
      futures, contents := ReplayExists(trace, capacity, accesses, n - 1);
      var key, before := accesses[n - 1], contents[n - 1];
      var future := PopOccurrence(futures[n - 1], key, n - 1);
      var after := before;
      if key !in before && |before| < capacity {
        after := before + {key};
      } else if key !in before {
        var victim := LooksFurthestExists(future, before);
        after := before - {victim} + {key};
      }
      OracleReplayExtends(trace, capacity, accesses, n - 1, futures, contents, future, after);
      futures, contents := futures + [future], contents + [after];
    }
  }

  lemma ReportExists(events: seq<RoutingEvent>, capacity: nat, order: seq<RoutingEvent>)
    requires capacity >= 1 && IsGrouping(events, order)
    ensures exists misses: nat :: MayReport(events, capacity, order, misses)
  {
    var trace, accesses := TracePairs(events), TracePairs(order);
    var futures, contents := ReplayExists(trace, capacity, accesses, |accesses|);
    assert MayReport(events, capacity, order, Misses(accesses, contents));
  }

  // ---------------------------------------------------------------- every replay is a demand-paging run

  lemma {:induction false} ReplayFits(trace: seq<Key>, capacity: nat, accesses: seq<Key>,
                                      futures: seq<map<Key, seq<nat>>>, contents: seq<set<Key>>, n: nat)
    requires capacity >= 1 && IsOracleReplay(trace, capacity, accesses, |accesses|, futures, contents)
    requires n <= |accesses|
    ensures |contents[n]| <= capacity
  {
    if n > 0 {
      ReplayFits(trace, capacity, accesses, futures, contents, n - 1);
      var i := n - 1;
      assert OracleReplayStep(capacity, accesses[i], i, futures[i], futures[n], contents[i], contents[n]);
    }
  }

  /** Stale lists or not, the oracle object admits what it misses and keeps within capacity. */
  lemma ReplayIsAdmitting(trace: seq<Key>, capacity: nat, accesses: seq<Key>, futures: seq<map<Key, seq<nat>>>,
                          contents: seq<set<Key>>)
    requires capacity >= 1 && IsOracleReplay(trace, capacity, accesses, |accesses|, futures, contents)
    ensures IsAdmitting(accesses, capacity, contents)
  {
    forall i | 0 <= i < |accesses|
      ensures ScheduleStep(accesses, capacity, i, contents[i], contents[i + 1]) && accesses[i] in contents[i + 1]
    {
      ReplayFits(trace, capacity, accesses, futures, contents, i + 1);
      assert OracleReplayStep(capacity, accesses[i], i, futures[i], futures[i + 1], contents[i], contents[i + 1]);
    }
  }

  lemma OneSlotHoldsLast(trace: seq<Key>, contents: seq<set<Key>>, n: nat)
    requires IsAdmitting(trace, 1, contents) && 0 < n <= |trace|
    ensures contents[n] == {trace[n - 1]}
  {
    assert ScheduleStep(trace, 1, n - 1, contents[n - 1], contents[n]);
    assert trace[n - 1] in contents[n];
    SizeWithout(contents[n], trace[n - 1]);
    assert contents[n] - {trace[n - 1]} == {};
  }

  /** With one slot there is nothing to choose: every replay misses exactly as often as LRU. */
  lemma OneSlotMissesLikeLru(events: seq<RoutingEvent>, order: seq<RoutingEvent>, misses: nat)
    requires MayReport(events, 1, order, misses)
    ensures misses == LruMisses(1, TracePairs(order))
  {
    var accesses := TracePairs(order);
    var futures, contents :|
      && IsOracleReplay(TracePairs(events), 1, accesses, |accesses|, futures, contents)
      && misses == Misses(accesses, contents);
    ReplayIsAdmitting(TracePairs(events), 1, accesses, futures, contents);
    LruIsAdmitting(1, accesses);
    var lru := LruContents(1, accesses);
    forall n | 0 < n <= |accesses| ensures contents[n] == lru[n] {
      OneSlotHoldsLast(accesses, contents, n);
      OneSlotHoldsLast(accesses, lru, n);
    }
    assert contents == lru;
  }

  // ---------------------------------------------------------------- a trace with one misplaced key

  const STRAY: Key := (0, 0)
  const USUAL: Key := (0, 1)

  /** `m` accesses of one key with a stray one at `at`, then `capacity` others in turn, twice. */
  function RoundKey(capacity: nat, m: nat, at: nat, k: nat): Key {
    if k == at then STRAY
    else if k < m then USUAL
    else if k < m + capacity then (0, k - m + 2)
    else (0, k - m - capacity + 2)
  }

  function RoundTrace(capacity: nat, m: nat, at: nat): (trace: seq<Key>)
    ensures |trace| == m + 2 * capacity
    ensures forall k :: 0 <= k < |trace| ==> trace[k] == RoundKey(capacity, m, at, k)
  {
    seq(m + 2 * capacity, k requires 0 <= k < m + 2 * capacity => RoundKey(capacity, m, at, k))
  }

  lemma RoundUses(capacity: nat, m: nat, at: nat, from: nat, to: nat)
    requires at < m && from <= to <= m + 2 * capacity
    ensures from >= m ==> Elements(RoundTrace(capacity, m, at)[from..to]) <= Elements(Keys(2, capacity + 2))
    ensures to <= m ==> Elements(RoundTrace(capacity, m, at)[from..to]) <= {STRAY, USUAL}
    ensures Elements(RoundTrace(capacity, m, at)[from..to]) <= Elements(Keys(0, capacity + 2))
  {
    var trace := RoundTrace(capacity, m, at);
    forall key | key in trace[from..to]
      ensures key in Keys(0, capacity + 2)
      ensures from >= m ==> key in Keys(2, capacity + 2)
      ensures to <= m ==> key in {STRAY, USUAL}
    {
      var k: nat :| from <= k < to && trace[k] == key;
      assert key == Keys(0, capacity + 2)[key.1];
      if from >= m {
        assert key == Keys(2, capacity + 2)[key.1 - 2];
      }
    }
  }

  /** LRU misses no key a second time. */
  lemma LruOnRound(capacity: nat, m: nat, at: nat, k: nat)
    requires capacity >= 2 && at < m && k < m + 2 * capacity
    ensures
      var trace := RoundTrace(capacity, m, at);
      MissesOnlyFirstUse(trace, LruContents(capacity, trace)[k], k)
  {
    hide MoveToEnd, Recency, LruStep;
    var trace := RoundTrace(capacity, m, at);
    var since := LastUse(trace, k, trace[k]);
    LruHoldsIffStackDistance(capacity, trace, k, trace[k]);
    if since >= 0 {
      assert trace[..k][since] == trace[k];
      RoundUses(capacity, m, at, since, k);
      if k < m {
        SubsetSize(Elements(trace[since..k]), {STRAY, USUAL});
      } else {
        assert k >= m + capacity && trace[k - capacity] == trace[k];
        KeysAreDistinct(2, capacity + 2);
        SubsetSize(Elements(trace[since..k]), Elements(Keys(2, capacity + 2)));
      }
    }
  }

  lemma LruMissesOnRound(capacity: nat, m: nat, at: nat)
    requires capacity >= 2 && at < m
    ensures LruMisses(capacity, RoundTrace(capacity, m, at)) <= capacity + 2
  {
    hide MissesOnlyFirstUse, MissesUpTo, RoundKey, LruStep;
    var trace := RoundTrace(capacity, m, at);
    forall k | 0 <= k < |trace| ensures MissesOnlyFirstUse(trace, LruContents(capacity, trace)[k], k) {
      LruOnRound(capacity, m, at, k);
    }
    ColdMisses(trace, LruContents(capacity, trace), |trace|);
    RoundUses(capacity, m, at, 0, |trace|);
    assert trace[..|trace|] == trace[0..|trace|];
    KeysAreDistinct(0, capacity + 2);
    SubsetSize(Elements(trace[..|trace|]), Elements(Keys(0, capacity + 2)));
  }

  // ---------------------------------------------------------------- what the oracle does with it

  /** All positions listed for the other keys come after `i`. */
  ghost predicate OthersLater(future: map<Key, seq<nat>>, i: nat) {
    forall key, due :: key != STRAY && due in Indices(future, key) ==> due > i
  }

  /** The lists of the other keys are those of the trace from `n` on. */
  ghost predicate OthersAligned(trace: seq<Key>, n: nat, future: map<Key, seq<nat>>)
    requires n <= |trace|
  {
    forall key :: key != STRAY ==> Indices(future, key) == Remaining(trace, n, key)
  }

  lemma {:induction false} RemainingIsLater(trace: seq<Key>, n: nat, key: Key)
    requires n <= |trace|
    ensures forall due :: due in Remaining(trace, n, key) ==> due >= n
    decreases |trace| - n
  {
    if n < |trace| {
      RemainingIsLater(trace, n + 1, key);
    }
  }

  lemma {:induction false} StrayIsListedOnce(capacity: nat, m: nat, at: nat, n: nat)
    requires at < m && n <= m + 2 * capacity
    ensures Remaining(RoundTrace(capacity, m, at), n, STRAY) == if n <= at then [at] else []
    decreases m + 2 * capacity - n
  {
    if n < m + 2 * capacity {
      StrayIsListedOnce(capacity, m, at, n + 1);
    }
  }

  lemma PopBeforeStray(capacity: nat, m: nat, i: nat, t: nat, n: nat, future: map<Key, seq<nat>>)
    requires n < t < m && i < m && OthersAligned(RoundTrace(capacity, m, i), n, future)
    ensures OthersAligned(RoundTrace(capacity, m, i), n + 1, PopOccurrence(future, USUAL, n))
  {
    var trace := RoundTrace(capacity, m, i);
    forall key | key != STRAY
      ensures Indices(PopOccurrence(future, USUAL, n), key) == Remaining(trace, n + 1, key)
    {
      assert Indices(future, key) == Remaining(trace, n, key);
      if key == USUAL && n != i {
        var left, last := Remaining(trace, n + 1, key), [n];
        assert Remaining(trace, n, key) == left + last && (left + last)[..|left|] == left;
      }
    }
  }

  /** The list of the stray key keeps the position it was never accessed at. */
  ghost predicate ListsAt(trace: seq<Key>, i: nat, t: nat, n: nat, future: map<Key, seq<nat>>)
    requires n <= |trace|
  {
    && Indices(future, STRAY) == [i]
    && if n <= t then OthersAligned(trace, n, future) else OthersLater(future, i)
  }

  lemma PopAfterStray(future: map<Key, seq<nat>>, i: nat, key: Key, n: nat)
    requires Indices(future, STRAY) == [i] && OthersLater(future, i) && n > i
    ensures
      var future' := PopOccurrence(future, key, n);
      Indices(future', STRAY) == [i] && OthersLater(future', i)
  {
    var future' := PopOccurrence(future, key, n);
    forall other, due | other != STRAY && due in Indices(future', other) ensures due > i {
      assert due in Indices(future, other);
    }
  }

  lemma AlignedIsLater(trace: seq<Key>, i: nat, t: nat, future: map<Key, seq<nat>>)
    requires i < t <= |trace| && OthersAligned(trace, t, future)
    ensures OthersLater(future, i)
  {
    forall key, due | key != STRAY && due in Indices(future, key) ensures due > i {
      RemainingIsLater(trace, t, key);
    }
  }

  lemma {:induction false} ListsStayStale(capacity: nat, m: nat, i: nat, t: nat, futures: seq<map<Key, seq<nat>>>,
                                          contents: seq<set<Key>>, n: nat)
    requires i < t < m && n <= m + 2 * capacity
    requires
      var accesses := RoundTrace(capacity, m, t);
      IsOracleReplay(RoundTrace(capacity, m, i), capacity, accesses, |accesses|, futures, contents)
    ensures ListsAt(RoundTrace(capacity, m, i), i, t, n, futures[n])
  {
    var trace, accesses := RoundTrace(capacity, m, i), RoundTrace(capacity, m, t);
    if n == 0 {
      StrayIsListedOnce(capacity, m, i, 0);
      assert Indices(futures[0], STRAY) == Remaining(trace, 0, STRAY);
    } else {
      ListsStayStale(capacity, m, i, t, futures, contents, n - 1);
      assert OracleReplayStep(capacity, accesses[n - 1], n - 1, futures[n - 1], futures[n], contents[n - 1],
                              contents[n]);
      if n <= t {
        PopBeforeStray(capacity, m, i, t, n - 1, futures[n - 1]);
      } else {
        if n - 1 == t {
          AlignedIsLater(trace, i, t, futures[n - 1]);
        }
        PopAfterStray(futures[n - 1], i, accesses[n - 1], n - 1);
      }
    }
  }

  lemma StrayIsNoVictim(future: map<Key, seq<nat>>, i: nat, cache: set<Key>, victim: Key)
    requires Indices(future, STRAY) == [i] && OthersLater(future, i) && |cache| >= 2
    requires LooksFurthest(future, cache, victim)
    ensures victim != STRAY
  {
    SizeWithout(cache, STRAY);
    var other := SomeElement(cache - {STRAY});
    var dues := Indices(future, other);
    assert dues != [] ==> LastOf(dues) in dues;
  }

  /** A past position still listed makes the stray key look due at once, so it is never evicted. */
  lemma {:induction false} StrayStays(capacity: nat, m: nat, i: nat, t: nat, futures: seq<map<Key, seq<nat>>>,
                                      contents: seq<set<Key>>, n: nat)
    requires capacity >= 2 && i < t < m && t < n <= m + 2 * capacity
    requires
      var accesses := RoundTrace(capacity, m, t);
      IsOracleReplay(RoundTrace(capacity, m, i), capacity, accesses, |accesses|, futures, contents)
    ensures STRAY in contents[n]
  {
    var accesses := RoundTrace(capacity, m, t);
    assert OracleReplayStep(capacity, accesses[n - 1], n - 1, futures[n - 1], futures[n], contents[n - 1], contents[n]);
    if n - 1 > t {
      StrayStays(capacity, m, i, t, futures, contents, n - 1);
      var key, before := accesses[n - 1], contents[n - 1];
      if key !in before && |before| >= capacity {
        var victim :| LooksFurthest(futures[n], before, victim) && contents[n] == before - {victim} + {key};
        ListsStayStale(capacity, m, i, t, futures, contents, n);
        StrayIsNoVictim(futures[n], i, before, victim);
      }
    }
  }

  lemma SomeRoundKeyAbsent(capacity: nat, held: set<Key>) returns (j: nat)
    requires STRAY in held && |held| <= capacity
    ensures j < capacity && (0, j + 2) !in held
  {
    var keys := Keys(2, capacity + 2);
    if Elements(keys) <= held {
      KeysAreDistinct(2, capacity + 2);
      SubsetSize(Elements(keys) + {STRAY}, held);
      assert false;
    }
    var key :| key in Elements(keys) && key !in held;
    j := key.1 - 2;
  }

  lemma RoundUsesAll(capacity: nat, m: nat, t: nat)
    requires 0 < t < m
    ensures |Elements(RoundTrace(capacity, m, t)[..m + capacity])| >= capacity + 2
  {
    var trace := RoundTrace(capacity, m, t)[..m + capacity];
    forall key | key in Keys(0, capacity + 2) ensures key in trace {
      var k: nat :| k < capacity + 2 && key == Keys(0, capacity + 2)[k];
      assert trace[if k == 0 then t else if k == 1 then 0 else m + k - 2] == key;
    }
    KeysAreDistinct(0, capacity + 2);
    SubsetSize(Elements(Keys(0, capacity + 2)), Elements(trace));
  }

  /** The slot it holds on to costs a miss LRU does not pay. */
  lemma StrayCostsAMiss(capacity: nat, m: nat, i: nat, t: nat, misses: nat)
    requires capacity >= 2 && i < t < m
    requires OracleMayMiss(RoundTrace(capacity, m, i), capacity, RoundTrace(capacity, m, t), misses)
    ensures misses > LruMisses(capacity, RoundTrace(capacity, m, t))
  {
    hide MissesUpTo, OracleReplayStep, Aligned, LruMisses;
    var accesses, n := RoundTrace(capacity, m, t), m + capacity;
    var futures, contents :|
      && IsOracleReplay(RoundTrace(capacity, m, i), capacity, accesses, |accesses|, futures, contents)
      && misses == Misses(accesses, contents);
    ReplayIsAdmitting(RoundTrace(capacity, m, i), capacity, accesses, futures, contents);
    FirstUsesMiss(accesses, capacity, contents, n);
    RoundUsesAll(capacity, m, t);
    StrayStays(capacity, m, i, t, futures, contents, n);
    assert ScheduleStep(accesses, capacity, n - 1, contents[n - 1], contents[n]);
    var j := SomeRoundKeyAbsent(capacity, contents[n]);
    assert accesses[n + j] == (0, j + 2);
    AbsentKeyMisses(accesses, capacity, contents, n, n + j);
    MissesNeverFall(accesses, contents, n + j + 1, |accesses|);
    LruMissesOnRound(capacity, m, t);
  }

  // ---------------------------------------------------------------- where grouping moves the stray key

  function Ceiling(tokens: seq<int>): (c: int)
    ensures forall token :: token in tokens ==> token <= c
  {
    if tokens == [] then 0
    else
      assert tokens == [tokens[0]] + tokens[1..];
      Max(tokens[0], Ceiling(tokens[1..]))
  }

  function RoundEvents(tokens: seq<int>, capacity: nat, at: nat): (events: seq<RoutingEvent>)
    ensures |events| == |tokens| + 2 * capacity
    ensures forall k :: 0 <= k < |events| ==>
      events[k] == RoutingEvent(if k < |tokens| then tokens[k] else Ceiling(tokens),
                                RoundKey(capacity, |tokens|, at, k))
  {
    seq(|tokens| + 2 * capacity, k requires 0 <= k < |tokens| + 2 * capacity =>
      RoutingEvent(if k < |tokens| then tokens[k] else Ceiling(tokens), RoundKey(capacity, |tokens|, at, k)))
  }

  lemma RoundEventsContinue(tokens: seq<int>, capacity: nat, at: nat)
    ensures Continues(tokens, RoundEvents(tokens, capacity, at))
    ensures TracePairs(RoundEvents(tokens, capacity, at)) == RoundTrace(capacity, |tokens|, at)
  {
    assert forall k :: 0 <= k < |tokens| ==> tokens[k] in tokens;
  }

  /** `i` is the first position with a smaller token id after it. */
  ghost predicate FirstDescent(tokens: seq<int>, i: nat, j: nat) {
    && i < j < |tokens| && tokens[j] < tokens[i]
    && forall k, l :: 0 <= k < i && k < l < |tokens| ==> tokens[k] <= tokens[l]
  }

  lemma {:induction false} FirstDescentExists(tokens: seq<int>, n: nat) returns (i: nat, j: nat)
    requires n <= |tokens| && !Ascends(tokens)
    requires forall k, l :: 0 <= k < n && k < l < |tokens| ==> tokens[k] <= tokens[l]
    ensures FirstDescent(tokens, i, j)
    decreases |tokens| - n
  {
    if l: nat :| n < l < |tokens| && tokens[l] < tokens[n] {
      i, j := n, l;
    } else {
      i, j := FirstDescentExists(tokens, n + 1);
    }
  }

  ghost predicate NoLater(a: seq<RoutingEvent>, b: seq<RoutingEvent>) {
    forall e, f :: e in a && f in b ==> e.tokenId <= f.tokenId
  }

  lemma GroupingConcat(a: seq<RoutingEvent>, aOrder: seq<RoutingEvent>, b: seq<RoutingEvent>, bOrder: seq<RoutingEvent>)
    requires IsGrouping(a, aOrder) && IsGrouping(b, bOrder) && NoLater(a, b)
    ensures IsGrouping(a + b, aOrder + bOrder)
  {
    GroupingIsPermutation(a, aOrder);
    GroupingIsPermutation(b, bOrder);
    forall e, f | e in aOrder && f in bOrder ensures e.tokenId <= f.tokenId {
      assert e in multiset(aOrder) && f in multiset(bOrder);
    }
    forall token ensures WithToken(aOrder + bOrder, token) == WithToken(a + b, token) {
      WithTokenConcat(a, b, token);
      WithTokenConcat(aOrder, bOrder, token);
      assert WithToken(aOrder, token) == WithToken(a, token) && WithToken(bOrder, token) == WithToken(b, token);
    }
  }

  lemma GroupingsAgree(events: seq<RoutingEvent>, order: seq<RoutingEvent>, other: seq<RoutingEvent>)
    requires IsGrouping(events, order) && IsGrouping(events, other)
    ensures order == other
  {
    forall token ensures WithToken(other, token) == WithToken(order, token) {
      assert WithToken(order, token) == WithToken(events, token) == WithToken(other, token);
    }
    GroupingIsUnique(order, other);
  }

  lemma TwoPlacesTwoCopies<T>(s: seq<T>, i: nat, j: nat)
    requires i < j < |s| && s[i] == s[j]
    ensures multiset(s)[s[i]] >= 2
  {
    assert s == s[..j] + s[j..];
    assert s[..j][i] == s[i] && s[j..][0] == s[i];
  }

  /** Grouping moves a stray key that a smaller token id follows, and leaves one of it. */
  lemma StrayMoves(b: seq<RoutingEvent>, g: seq<RoutingEvent>, j: nat) returns (at: nat)
    requires IsGrouping(b, g) && 0 < j < |b| && b[j].tokenId < b[0].tokenId
    requires b[0].key == STRAY && forall k :: 0 < k < |b| ==> b[k].key == USUAL
    ensures 0 < at < |g| == |b| && forall k :: 0 <= k < |g| ==> g[k].key == if k == at then STRAY else USUAL
  {
    GroupingIsPermutation(b, g);
    assert b == [b[0]] + b[1..];
    assert multiset(g)[b[0]] == multiset(b)[b[0]] == 1 && b[j] in multiset(g);
    at :| 0 <= at < |g| && g[at] == b[0];
    var p: nat :| p < |g| && g[p] == b[j];
    forall k | 0 <= k < |g| && k != at ensures g[k].key == USUAL {
      assert g[k] in multiset(b);
      if g[k] == b[0] {
        TwoPlacesTwoCopies(g, if k < at then k else at, if k < at then at else k);
      }
    }
  }

  /** Nothing before the first descent, and none of the continuation, is moved by grouping. */
  lemma RoundParts(tokens: seq<int>, capacity: nat, i: nat, j: nat)
    requires FirstDescent(tokens, i, j)
    ensures
      var events := RoundEvents(tokens, capacity, i);
      && Nondecreasing(events[..i]) && Nondecreasing(events[|tokens|..])
      && NoLater(events[..i], events[i..|tokens|]) && NoLater(events[..|tokens|], events[|tokens|..])
  {
    var events, m := RoundEvents(tokens, capacity, i), |tokens|;
    RoundEventsContinue(tokens, capacity, i);
    forall e, f | e in events[..i] && f in events[i..m] ensures e.tokenId <= f.tokenId {
      var k: nat :| k < i && events[k] == e;
      var l: nat :| i <= l < m && events[l] == f;
      assert tokens[k] <= tokens[l];
    }
  }

  lemma OrderedIsGrouped(events: seq<RoutingEvent>)
    requires Nondecreasing(events)
    ensures IsGrouping(events, events)
  {
  }

  /** Only a middle part that does not ascend is rearranged. */
  lemma MiddleIsGrouped(a: seq<RoutingEvent>, b: seq<RoutingEvent>, c: seq<RoutingEvent>, order: seq<RoutingEvent>)
    returns (g: seq<RoutingEvent>)
    requires Nondecreasing(a) && Nondecreasing(c) && NoLater(a, b) && NoLater(a + b, c) && IsGrouping(a + b + c, order)
    ensures IsGrouping(b, g) && order == a + g + c
  {
    hide IsGrouping, NoLater, Nondecreasing;
    g := GroupingExists(b);
    OrderedIsGrouped(a);
    OrderedIsGrouped(c);
    GroupingConcat(a, a, b, g);
    GroupingConcat(a + b, a + g, c, c);
    GroupingsAgree(a + b + c, order, a + g + c);
  }

  lemma RoundGrouping(tokens: seq<int>, capacity: nat, i: nat, j: nat, order: seq<RoutingEvent>)
    returns (g: seq<RoutingEvent>)
    requires FirstDescent(tokens, i, j) && IsGrouping(RoundEvents(tokens, capacity, i), order)
    ensures
      var events := RoundEvents(tokens, capacity, i);
      IsGrouping(events[i..|tokens|], g) && order == events[..i] + g + events[|tokens|..]
  {
    hide IsGrouping, NoLater, Nondecreasing, RoundKey;
    var events, m := RoundEvents(tokens, capacity, i), |tokens|;
    RoundParts(tokens, capacity, i, j);
    assert events[..i] + events[i..m] == events[..m];
    assert events[..m] + events[m..] == events;
    g := MiddleIsGrouped(events[..i], events[i..m], events[m..], order);
  }

  /** In every grouping the stray key comes later than in the trace. */
  lemma RoundReplay(tokens: seq<int>, capacity: nat, i: nat, j: nat, order: seq<RoutingEvent>) returns (t: nat)
    requires FirstDescent(tokens, i, j) && IsGrouping(RoundEvents(tokens, capacity, i), order)
    ensures i < t < |tokens| && TracePairs(order) == RoundTrace(capacity, |tokens|, t)
  {
    hide IsGrouping;
    var g := RoundGrouping(tokens, capacity, i, j, order);
    var at := StrayMoves(RoundEvents(tokens, capacity, i)[i..|tokens|], g, j - i);
    t := i + at;
  }

  lemma RoundLosesToLru(tokens: seq<int>, capacity: nat, i: nat, j: nat)
    requires capacity >= 2 && FirstDescent(tokens, i, j)
    ensures LosesToLru(RoundEvents(tokens, capacity, i), capacity)
  {
    var events := RoundEvents(tokens, capacity, i);
    RoundEventsContinue(tokens, capacity, i);
    forall order, misses: nat | MayReport(events, capacity, order, misses)
      ensures misses > LruMisses(capacity, TracePairs(order))
    {
      var t := RoundReplay(tokens, capacity, i, j, order);
      StrayCostsAMiss(capacity, |tokens|, i, t, misses);
    }
    var order := GroupingExists(events);
    ReportExists(events, capacity, order);
  }

  // ---------------------------------------------------------------- the exact condition

  /** Wherever token ids decrease, keys and a continuation exist on which the oracle loses to LRU. */
  lemma DescentBreaksTheOracle(tokens: seq<int>, capacity: nat)
    requires capacity >= 2 && !Ascends(tokens)
    ensures exists events :: Continues(tokens, events) && LosesToLru(events, capacity)
  {
    var i, j := FirstDescentExists(tokens, 0);
    RoundEventsContinue(tokens, capacity, i);
    RoundLosesToLru(tokens, capacity, i, j);
  }

  lemma AscendingTokensKeepTheBound(tokens: seq<int>, capacity: nat)
    requires capacity >= 1 && Ascends(tokens)
    ensures OracleBoundsLruOn(tokens, capacity)
  {
    forall events, order, misses: nat | Continues(tokens, events) && MayReport(events, capacity, order, misses)
      ensures misses <= LruMisses(capacity, TracePairs(order))
    {
      assert Nondecreasing(events);
      ReplayOrderIsTraceOrder(events, order);
      OracleMayMissIsMinimum(events, order, capacity, misses);
      OracleBoundsLru(TracePairs(events), capacity);
    }
  }

  /** The oracle bounds LRU after these token ids exactly when they never decrease or there is one slot. */
  lemma OracleBoundsLruIff(tokens: seq<int>, capacity: nat)
    requires capacity >= 1
    ensures OracleBoundsLruOn(tokens, capacity) <==> capacity == 1 || Ascends(tokens)
  {
    if Ascends(tokens) {
      AscendingTokensKeepTheBound(tokens, capacity);
    } else if capacity == 1 {
      forall events, order, misses: nat | Continues(tokens, events) && MayReport(events, 1, order, misses)
        ensures misses <= LruMisses(1, TracePairs(order))
      {
        OneSlotMissesLikeLru(events, order, misses);
      }
    } else {
      DescentBreaksTheOracle(tokens, capacity);
      var events :| Continues(tokens, events) && LosesToLru(events, capacity);
      var order, misses: nat :| MayReport(events, capacity, order, misses);
      assert misses > LruMisses(capacity, TracePairs(order));
    }
  }

  /** At every capacity: exactly when they never decrease. */
  lemma AscendingTokensAreNeeded(tokens: seq<int>)
    ensures Ascends(tokens) <==> forall capacity: nat :: capacity >= 1 ==> OracleBoundsLruOn(tokens, capacity)
  {
    forall capacity: nat | capacity >= 1
      ensures OracleBoundsLruOn(tokens, capacity) <==> capacity == 1 || Ascends(tokens)
    {
      OracleBoundsLruIff(tokens, capacity);
    }
    if forall capacity: nat :: capacity >= 1 ==> OracleBoundsLruOn(tokens, capacity) {
      assert OracleBoundsLruOn(tokens, 2);
    }
  }
}
