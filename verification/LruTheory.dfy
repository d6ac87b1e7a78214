/** The stack property of LRU: contents at one capacity are contents at every larger one. */
module LruTheory {
  import opened Collections
  import opened ReplacementTheory
  import opened SimCache

  /** Every key seen in the first `n` accesses, least recently used first. */
  ghost function Recency(trace: seq<Key>, n: nat): seq<Key>
    requires n <= |trace|
  {
    if n == 0 then [] else MoveToEnd(Recency(trace, n - 1), trace[n - 1])
  }

  ghost function LastN<T>(s: seq<T>, n: nat): seq<T> {
    if |s| <= n then s else s[|s| - n..]
  }

  lemma LruHitOnRecency(capacity: nat, older: seq<Key>, held: seq<Key>, key: Key)
    requires capacity >= 1 && |held| <= capacity && (older == [] || |held| == capacity)
    requires key !in older && key in held
    ensures LruStep(capacity, held, key) == LastN(MoveToEnd(older + held, key), capacity)
  {
    WithoutConcat(older, held, key);
    assert MoveToEnd(older + held, key) == older + MoveToEnd(held, key);
    LastNOfConcat(older, MoveToEnd(held, key), capacity);
  }

  lemma LruMissOnRecency(capacity: nat, older: seq<Key>, held: seq<Key>, key: Key)
    requires capacity >= 1 && |held| <= capacity && (older == [] || |held| == capacity)
    requires key !in held
    ensures LruStep(capacity, held, key) == LastN(MoveToEnd(older + held, key), capacity)
  {
    WithoutConcat(older, held, key);
    var rest := Without(older, key);
    assert Without(older + held, key) == rest + held;
    if |held| == capacity {
      assert held == [held[0]] + held[1..];
      assert MoveToEnd(older + held, key) == (rest + [held[0]]) + (held[1..] + [key]);
      LastNOfConcat(rest + [held[0]], held[1..] + [key], capacity);
    } else {
      assert MoveToEnd(older + held, key) == held + [key];
    }
  }

  lemma LastNOfConcat<T>(a: seq<T>, b: seq<T>, n: nat)
    requires |b| == n || (a == [] && |b| <= n)
    ensures LastN(a + b, n) == b
  {
  }

  lemma LruStepOnRecency(capacity: nat, recent: seq<Key>, key: Key)
    requires capacity >= 1 && Distinct(recent)
    ensures LruStep(capacity, LastN(recent, capacity), key) == LastN(MoveToEnd(recent, key), capacity)
  {
    var held := LastN(recent, capacity);
    var older := recent[..|recent| - |held|];
    assert recent == older + held;
    if key in held {
      assert key !in older;
      LruHitOnRecency(capacity, older, held, key);
    } else {
      LruMissOnRecency(capacity, older, held, key);
    }
  }

  /** The last use of `key` among the first `n` accesses, or -1. */
  ghost function LastUse(trace: seq<Key>, n: nat, key: Key): (i: int)
    requires n <= |trace|
    ensures -1 <= i < n && (i >= 0 ==> trace[i] == key)
    ensures forall j :: i < j < n ==> trace[j] != key
  {
    if n == 0 then -1 else if trace[n - 1] == key then n - 1 else LastUse(trace, n - 1, key)
  }

  lemma {:induction false} RecencyIsDistinct(trace: seq<Key>, n: nat)
    requires n <= |trace|
    ensures Distinct(Recency(trace, n))
  {
    if n > 0 {
      RecencyIsDistinct(trace, n - 1);
      MoveToEndKeeps(Recency(trace, n - 1), trace[n - 1]);
    }
  }

  /** The recency order lists the keys used so far. */
  lemma {:induction false} RecencyHoldsUsed(trace: seq<Key>, n: nat, k: Key)
    requires n <= |trace|
    ensures k in Recency(trace, n) <==> LastUse(trace, n, k) >= 0
  {
    if n > 0 {
      RecencyHoldsUsed(trace, n - 1, k);
      RecencyIsDistinct(trace, n - 1);
      WithoutIsDistinct(Recency(trace, n - 1), trace[n - 1]);
      WithoutMembers(Recency(trace, n - 1), trace[n - 1], k);
    }
  }

  /** And lists them in the order of their last uses. */
  lemma {:induction false} RecencyIsByLastUse(trace: seq<Key>, n: nat)
    requires n <= |trace|
    ensures ByLastUse(trace, n, Recency(trace, n))
  {
    if n > 0 {
      var before, key := Recency(trace, n - 1), trace[n - 1];
      RecencyIsByLastUse(trace, n - 1);
      RecencyIsDistinct(trace, n - 1);
      WithoutIsDistinct(before, key);
      WithoutIsAscending(LastUseRank(trace, n - 1), before, key);
      ByLastUseAfterAccess(trace, n - 1, Without(before, key));
    }
  }

  ghost predicate ByLastUse(trace: seq<Key>, n: nat, order: seq<Key>)
    requires n <= |trace|
  {
    Ascending(LastUseRank(trace, n), order)
  }

  ghost function LastUseRank(trace: seq<Key>, n: nat): Key -> int
    requires n <= |trace|
  {
    k => LastUse(trace, n, k)
  }

  /** Access `n` makes `trace[n]` the most recent key and keeps the others in place. */
  lemma ByLastUseAfterAccess(trace: seq<Key>, n: nat, others: seq<Key>)
    requires n < |trace| && ByLastUse(trace, n, others) && trace[n] !in others
    ensures ByLastUse(trace, n + 1, others + [trace[n]])
  {
    var before, after := LastUseRank(trace, n), LastUseRank(trace, n + 1);
    var order := others + [trace[n]];
    forall i, j | 0 <= i < j < |order| ensures after(order[i]) < after(order[j]) {
      assert order[i] == others[i];
      if j < |others| {
        assert order[j] == others[j] && before(others[i]) < before(others[j]);
      }
    }
  }

  /** LRU with `capacity` slots holds the `capacity` most recently used keys, in order. */
  lemma {:induction false} LruHoldsMostRecent(capacity: nat, trace: seq<Key>, n: nat)
    requires capacity >= 1 && n <= |trace|
    ensures LruAt(capacity, trace, n) == LastN(Recency(trace, n), capacity)
  {
    if n > 0 {
      LruHoldsMostRecent(capacity, trace, n - 1);
      RecencyIsDistinct(trace, n - 1);
      LruStepOnRecency(capacity, Recency(trace, n - 1), trace[n - 1]);
    }
  }

  /** How many distinct keys were used since the last use of a key, itself included: as
      many as stand from its place in the recency order on. */
  lemma StackDistance(trace: seq<Key>, n: nat, j: nat)
    requires n <= |trace| && j < |Recency(trace, n)|
    ensures
      var since := LastUse(trace, n, Recency(trace, n)[j]);
      since >= 0 && |Elements(trace[since..n])| == |Recency(trace, n)| - j
  {
    var recent := Recency(trace, n);
    RecencyIsByLastUse(trace, n);
    RecencyIsDistinct(trace, n);
    RecencyHoldsUsed(trace, n, recent[j]);
    AscendingSuffix(LastUseRank(trace, n), recent, j);
    var since := LastUse(trace, n, recent[j]);
    forall k ensures k in Elements(trace[since..n]) <==> k in Elements(recent[j..]) {
      UsedSince(trace, n, since, k);
      RecencyHoldsUsed(trace, n, k);
    }
    assert Elements(trace[since..n]) == Elements(recent[j..]);
    DistinctSize(recent[j..]);
  }

  lemma UsedSince(trace: seq<Key>, n: nat, since: nat, k: Key)
    requires since <= n <= |trace|
    ensures k in trace[since..n] <==> LastUse(trace, n, k) >= since
  {
    if LastUse(trace, n, k) >= since {
      assert trace[since..n][LastUse(trace, n, k) - since] == k;
    }
  }

  lemma InLastN<T>(s: seq<T>, n: nat, j: nat)
    requires Distinct(s) && j < |s|
    ensures s[j] in LastN(s, n) <==> |s| - j <= n
  {
    if |s| > n {
      var last := s[|s| - n..];
      if |s| - j <= n {
        assert last[j - (|s| - n)] == s[j];
      }
    }
  }

  /** A key is resident iff it was used and at most `capacity` distinct keys, itself
      included, have been used since. */
  lemma LruHoldsIffStackDistance(capacity: nat, trace: seq<Key>, n: nat, key: Key)
    requires capacity >= 1 && n <= |trace|
    ensures key in LruAt(capacity, trace, n) <==>
      var since := LastUse(trace, n, key);
      since >= 0 && |Elements(trace[since..n])| <= capacity
  {
    var recent := Recency(trace, n);
    RecencyIsDistinct(trace, n);
    RecencyHoldsUsed(trace, n, key);
    LruHoldsMostRecent(capacity, trace, n);
    if key in recent {
      var j: nat :| j < |recent| && recent[j] == key;
      StackDistance(trace, n, j);
      InLastN(recent, capacity, j);
    }
  }

  /** The inclusion property: a larger LRU holds everything a smaller one does. */
  lemma LruInclusion(small: nat, large: nat, trace: seq<Key>, n: nat)
    requires 1 <= small <= large && n <= |trace|
    ensures Elements(LruAt(small, trace, n)) <= Elements(LruAt(large, trace, n))
  {
    forall key | key in LruAt(small, trace, n) ensures key in LruAt(large, trace, n) {
      LruHoldsIffStackDistance(small, trace, n, key);
      LruHoldsIffStackDistance(large, trace, n, key);
    }
  }

  /** So LRU misses never increase with capacity. */
  lemma LruMonotone(small: nat, large: nat, trace: seq<Key>)
    requires 1 <= small <= large
    ensures LruMisses(large, trace) <= LruMisses(small, trace)
  {
    var p, q := LruContents(small, trace), LruContents(large, trace);
    forall i | 0 <= i < |trace| ensures p[i] <= q[i] {
      LruInclusion(small, large, trace, i);
    }
    MoreHeldFewerMisses(trace, p, q, |trace|);
  }

  lemma LruHoldsAllSeen(capacity: nat, trace: seq<Key>, n: nat, key: Key)
    requires capacity >= 1 && n <= |trace| && |Elements(trace)| <= capacity
    ensures key in LruContents(capacity, trace)[n] <==> key in Elements(trace[..n])
  {
    LruHoldsIffStackDistance(capacity, trace, n, key);
    var since := LastUse(trace, n, key);
    if since >= 0 {
      SubsetSize(Elements(trace[since..n]), Elements(trace));
      assert trace[..n][since] == key;
    }
  }

  ghost predicate MissesOnlyFirstUse(trace: seq<Key>, held: set<Key>, i: nat)
    requires i < |trace|
  {
    trace[i] in held <==> trace[i] in Elements(trace[..i])
  }

  /** A cache that misses only on first uses misses once per distinct key. */
  lemma {:induction false} ColdMisses(trace: seq<Key>, contents: seq<set<Key>>, n: nat)
    requires n <= |trace| < |contents|
    requires forall i :: 0 <= i < |trace| ==> MissesOnlyFirstUse(trace, contents[i], i)
    ensures MissesUpTo(trace, contents, n) == |Elements(trace[..n])|
  {
    if n == 0 {
      assert Elements(trace[..0]) == {};
    } else {
      ColdMisses(trace, contents, n - 1);
      ElementsGrow(trace, n - 1);
      assert MissesOnlyFirstUse(trace, contents[n - 1], n - 1);
    }
  }

  lemma ElementsGrow<T>(s: seq<T>, n: nat)
    requires n < |s|
    ensures |Elements(s[..n + 1])| == |Elements(s[..n])| + if s[n] in Elements(s[..n]) then 0 else 1
  {
    assert Elements(s[..n + 1]) == Elements(s[..n]) + {s[n]};
    SizeWithout(Elements(s[..n + 1]), s[n]);
    SizeWithout(Elements(s[..n]), s[n]);
    assert Elements(s[..n + 1]) - {s[n]} == Elements(s[..n]) - {s[n]};
  }

  /** With room for every key, LRU misses each distinct key exactly once. */
  lemma LruUnboundedMisses(capacity: nat, trace: seq<Key>)
    requires capacity >= 1 && |Elements(trace)| <= capacity
    ensures LruMisses(capacity, trace) == |Elements(trace)|
  {
    forall i | 0 <= i < |trace|
      ensures MissesOnlyFirstUse(trace, LruContents(capacity, trace)[i], i)
    {
      LruHoldsAllSeen(capacity, trace, i, trace[i]);
    }
    ColdMisses(trace, LruContents(capacity, trace), |trace|);
    assert trace[..|trace|] == trace;
  }

  // ---------------------------------------------------------------- how long a key stays

  /** `trace[j]` is held from its access on until access `n`. */
  ghost predicate StaysHeld(capacity: nat, trace: seq<Key>, j: nat, n: nat)
    requires capacity >= 1 && j < |trace| && n <= |trace|
  {
    forall i :: j < i <= n ==> trace[j] in LruAt(capacity, trace, i)
  }

  /** It is as long as at most `capacity` distinct keys come up. */
  lemma RecentKeyStays(capacity: nat, trace: seq<Key>, j: nat, n: nat)
    requires capacity >= 1 && j < n <= |trace| && |Elements(trace[j..n])| <= capacity
    ensures StaysHeld(capacity, trace, j, n)
  {
    forall i | j < i <= n ensures trace[j] in LruAt(capacity, trace, i) {
      LruHoldsIffStackDistance(capacity, trace, i, trace[j]);
      var since := LastUse(trace, i, trace[j]);
      SubsetSize(Elements(trace[since..i]), Elements(trace[j..n]));
    }
  }

  /** When as many have, itself included, it is the one to be evicted next. */
  lemma LastInFullCache(capacity: nat, trace: seq<Key>, j: nat, n: nat)
    requires capacity >= 1 && j < n <= |trace| && |Elements(trace[j..n])| == capacity
    requires forall i :: j < i < n ==> trace[i] != trace[j]
    ensures |LruAt(capacity, trace, n)| == capacity && LruAt(capacity, trace, n)[0] == trace[j]
  {
    var recent := Recency(trace, n);
    assert LastUse(trace, n, trace[j]) == j;
    RecencyHoldsUsed(trace, n, trace[j]);
    var p: nat :| p < |recent| && recent[p] == trace[j];
    StackDistance(trace, n, p);
    LruHoldsMostRecent(capacity, trace, n);
  }

  /** And the next key that is none of them evicts it. */
  lemma NextKeyMisses(capacity: nat, trace: seq<Key>, j: nat, n: nat)
    requires capacity >= 1 && j <= n < |trace| && |Elements(trace[j..n])| == capacity && trace[n] !in trace[j..n]
    ensures trace[n] !in LruAt(capacity, trace, n)
  {
    LruHoldsIffStackDistance(capacity, trace, n, trace[n]);
    var since := LastUse(trace, n, trace[n]);
    UsedSince(trace, n, j, trace[n]);
    if since >= 0 {
      assert trace[since..n][0] == trace[n];
      SizeWithout(Elements(trace[j..n]) + {trace[n]}, trace[n]);
      assert Elements(trace[j..n]) + {trace[n]} - {trace[n]} == Elements(trace[j..n]);
      SubsetSize(Elements(trace[j..n]) + {trace[n]}, Elements(trace[since..n]));
    }
  }

  /** The accesses among the first `n` that miss, in order. */
  ghost function PassedOn(capacity: nat, trace: seq<Key>, n: nat): (missed: seq<Key>)
    requires capacity >= 1 && n <= |trace|
    ensures |missed| == MissesUpTo(trace, LruContents(capacity, trace), n)
  {
    if n == 0 then []
    else PassedOn(capacity, trace, n - 1) +
         if trace[n - 1] in LruAt(capacity, trace, n - 1) then [] else [trace[n - 1]]
  }

  lemma {:induction false} PassedOnGrows(capacity: nat, trace: seq<Key>, m: nat, n: nat)
    requires capacity >= 1 && m <= n <= |trace|
    ensures PassedOn(capacity, trace, m) <= PassedOn(capacity, trace, n)
  {
    hide LruAt, LruContents, MissesUpTo;
    if m < n {
      PassedOnGrows(capacity, trace, m, n - 1);
    }
  }

  /** The next access is passed on exactly if it misses. */
  lemma PassedOnNext(capacity: nat, trace: seq<Key>, n: nat)
    requires capacity >= 1 && n < |trace| && trace[n] !in LruAt(capacity, trace, n)
    ensures
      var missed, m := PassedOn(capacity, trace, |trace|), MissesUpTo(trace, LruContents(capacity, trace), n);
      m < |missed| && missed[m] == trace[n]
  {
    PassedOnGrows(capacity, trace, n + 1, |trace|);
    assert PassedOn(capacity, trace, n + 1) == PassedOn(capacity, trace, n) + [trace[n]];
  }
}
