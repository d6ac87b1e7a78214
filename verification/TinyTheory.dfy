/** When TinyLFU can reject a key, and so when it can miss less often than the oracle. */
module TinyTheory {
  import opened Collections
  import opened Matrices
  import opened ReplacementTheory
  import opened SimCache
  import opened LruTheory

  /** `sample_window` unless the caller says otherwise. */
  const DEFAULT_WINDOW: nat := 10000

  /** Accesses between two decays; a window below one decays at every access. */
  function Period(window: nat): (w: nat)
    ensures w >= 1
  {
    if window < 1 then 1 else window
  }

  ghost function TinyAt(capacity: nat, window: nat, trace: seq<Key>, n: nat): Tiny
    requires capacity >= 1 && n <= |trace|
  {
    StateAt(TinyPolicy(capacity, window), Tiny([], map[], 0), trace, n)
  }

  /** The cache after an access that finds counters `freqs`. */
  function CacheAfter(capacity: nat, cache: seq<Key>, freqs: map<Key, nat>, key: Key): seq<Key>
    requires capacity >= 1
  {
    if key in cache then MoveToEnd(cache, key)
    else if |cache| < capacity then cache + [key]
    else if Freq(freqs, key) >= Freq(freqs, cache[0]) then cache[1..] + [key]
    else cache
  }

  /** One access: what becomes of the counters, the cache and the miss count. */
  lemma TinyAccess(capacity: nat, window: nat, trace: seq<Key>, n: nat)
    requires capacity >= 1 && n < |trace|
    ensures
      var s, s' := TinyAt(capacity, window, trace, n), TinyAt(capacity, window, trace, n + 1);
      var t := RecordFreq(window, s, trace[n]);
      && s'.freqs == t.freqs && s'.totalCount == t.totalCount
      && s'.cache == CacheAfter(capacity, s.cache, t.freqs, trace[n])
      && MissesUpTo(trace, TinyContents(capacity, window, trace), n + 1) ==
        MissesUpTo(trace, TinyContents(capacity, window, trace), n) + if trace[n] in s.cache then 0 else 1
  {
    ReplayStep(TinyPolicy(capacity, window), TinyHolds, Tiny([], map[], 0), trace, n);
  }

  /** The counter of `key` after `n` accesses: one up at each use, halved at every `w`-th access. */
  ghost function Counted(w: nat, trace: seq<Key>, n: nat, key: Key): nat
    requires w >= 1 && n <= |trace|
  {
    if n == 0 then 0
    else
      var counted := Counted(w, trace, n - 1, key) + if trace[n - 1] == key then 1 else 0;
      if n % w == 0 then counted / 2 else counted
  }

  /** Stepping a counter that wraps at `w`. */
  lemma WrapStep(n: nat, w: nat)
    requires w >= 1
    ensures (n + 1) % w == if n % w + 1 == w then 0 else n % w + 1
    ensures (n + 1) / w == n / w + if n % w + 1 == w then 1 else 0
  {
    JoinIndex(n, w);
    if n % w + 1 == w {
      assert n + 1 == (n / w + 1) * w;
      SplitIndex(n / w + 1, 0, w);
    } else {
      SplitIndex(n / w, n % w + 1, w);
    }
  }

  lemma RecordCounts(window: nat, s: Tiny, used: Key, key: Key)
    ensures
      var counted := Freq(s.freqs, key) + if used == key then 1 else 0;
      Freq(RecordFreq(window, s, used).freqs, key) == if s.totalCount + 1 >= window then counted / 2 else counted
  {
  }

  ghost predicate CountersAgree(w: nat, freqs: map<Key, nat>, totalCount: nat, trace: seq<Key>, n: nat)
    requires w >= 1 && n <= |trace|
  {
    totalCount == n % w && forall key :: Freq(freqs, key) == Counted(w, trace, n, key)
  }

  lemma RecordKeepsCounters(window: nat, s: Tiny, trace: seq<Key>, n: nat)
    requires n < |trace| && CountersAgree(Period(window), s.freqs, s.totalCount, trace, n)
    ensures
      var t := RecordFreq(window, s, trace[n]);
      CountersAgree(Period(window), t.freqs, t.totalCount, trace, n + 1)
  {
    WrapStep(n, Period(window));
    var t := RecordFreq(window, s, trace[n]);
    forall key ensures Freq(t.freqs, key) == Counted(Period(window), trace, n + 1, key) {
      RecordCounts(window, s, trace[n], key);
      assert Freq(s.freqs, key) == Counted(Period(window), trace, n, key);
    }
  }

  lemma NothingCounted(capacity: nat, window: nat, trace: seq<Key>)
    requires capacity >= 1
    ensures
      var s := TinyAt(capacity, window, trace, 0);
      s.cache == [] && CountersAgree(Period(window), s.freqs, s.totalCount, trace, 0)
  {
    SplitIndex(0, 0, Period(window));
  }

  lemma {:induction false} CountersAlwaysAgree(capacity: nat, window: nat, trace: seq<Key>, n: nat)
    requires capacity >= 1 && n <= |trace|
    ensures
      var s := TinyAt(capacity, window, trace, n);
      CountersAgree(Period(window), s.freqs, s.totalCount, trace, n)
  {
    hide TinyAt, RecordFreq, CountersAgree, CacheAfter, MissesUpTo, Period;
    if n == 0 {
      NothingCounted(capacity, window, trace);
    } else {
      CountersAlwaysAgree(capacity, window, trace, n - 1);
      TinyAccess(capacity, window, trace, n - 1);
      RecordKeepsCounters(window, TinyAt(capacity, window, trace, n - 1), trace, n - 1);
    }
  }

  // ---------------------------------------------------------------- how counters move

  lemma {:induction false} CountIsBounded(w: nat, trace: seq<Key>, n: nat, key: Key)
    requires w >= 1 && n <= |trace|
    ensures Counted(w, trace, n, key) <= w - 1 + n % w
  {
    if n > 0 {
      CountIsBounded(w, trace, n - 1, key);
      WrapStep(n - 1, w);
    }
  }

  lemma HalveAgain(x: nat, p: nat)
    requires p >= 1
    ensures x / p / 2 == x / (2 * p)
  {
    var q, r := x / p, x % p;
    JoinIndex(x, p);
    assert q == q / 2 * 2 + q % 2;
    assert x == q / 2 * (2 * p) + (q % 2 * p + r) by {
      assert (q / 2 * 2 + q % 2) * p == q / 2 * (2 * p) + q % 2 * p;
    }
    SplitIndex(q / 2, q % 2 * p + r, 2 * p);
  }

  /** A key left alone is halved once per decay. */
  lemma {:induction false} CountSince(w: nat, trace: seq<Key>, m: nat, n: nat, key: Key)
    requires w >= 1 && m <= n <= |trace| && forall i :: m <= i < n ==> trace[i] != key
    ensures m / w <= n / w
    ensures Counted(w, trace, n, key) == Counted(w, trace, m, key) / Power(n / w - m / w)
  {
    if m < n {
      CountSince(w, trace, m, n - 1, key);
      WrapStep(n - 1, w);
      HalveAgain(Counted(w, trace, m, key), Power((n - 1) / w - m / w));
    }
  }

  /** A key used all the time from a decay at `b` on gains at least one count per decay. */
  lemma {:induction false} CountOfRun(w: nat, trace: seq<Key>, b: nat, n: nat, key: Key)
    requires w >= 1 && b <= n <= |trace| && b % w == 0 && forall i :: b <= i < n ==> trace[i] == key
    ensures b / w <= n / w
    ensures Counted(w, trace, n, key) >= (if n / w - b / w <= w - 1 then n / w - b / w else w - 1) + n % w
  {
    if b < n {
      CountOfRun(w, trace, b, n - 1, key);
      WrapStep(n - 1, w);
    }
  }

  // ---------------------------------------------------------------- when every key is admitted

  /** Whether some trace makes TinyLFU reject a key: the largest counter that can be built up,
      less what is lost while the other keys of a full cache pass by. */
  predicate MayBypass(capacity: nat, window: nat)
    requires capacity >= 1
  {
    var w := Period(window);
    2 * w - 2 - (capacity - 1) % w >= Power((capacity - 1) / w + 1)
  }

  lemma {:induction false} PowerGrows(j: nat, k: nat)
    requires j <= k
    ensures Power(j) <= Power(k)
  {
    if j < k {
      PowerGrows(j, k - 1);
    }
  }

  lemma QuotientOne(x: nat, p: nat)
    requires p >= 1 && x < 2 * p
    ensures x / p <= 1
  {
    QuotientBelow(x, p, 2);
  }

  /** How many decays lie between a use at `m` and `n`, when `capacity - 1` others come between. */
  lemma DecaysBetween(w: nat, others: nat, m: nat, n: nat)
    requires w >= 1 && m + others <= n
    ensures n / w - m / w >= others / w + if m % w + others % w >= w then 1 else 0
  {
    JoinIndex(m, w);
    JoinIndex(others, w);
    var t := m % w + others % w;
    var k := m / w + others / w;
    assert m + others == k * w + t by {
      assert k * w == m / w * w + others / w * w;
    }
    if t >= w {
      assert m + others == (k + 1) * w + (t - w);
      SplitIndex(k + 1, t - w, w);
    } else {
      SplitIndex(k, t, w);
    }
    DivMonotone(m + others, n, w);
  }

  /** Below the condition, a key that `capacity - 1` others have passed by counts at most once. */
  lemma ColdCountsOnce(capacity: nat, window: nat, trace: seq<Key>, m: nat, n: nat, key: Key)
    requires capacity >= 1 && !MayBypass(capacity, window)
    requires m + (capacity - 1) <= n <= |trace| && forall i :: m <= i < n ==> trace[i] != key
    ensures Counted(Period(window), trace, n, key) <= 1
  {
    var w := Period(window);
    var q, s, t := (capacity - 1) / w, (capacity - 1) % w, m % w;
    CountIsBounded(w, trace, m, key);
    CountSince(w, trace, m, n, key);
    DecaysBetween(w, capacity - 1, m, n);
    JoinIndex(capacity - 1, w);
    assert 2 * w - 2 - s < Power(q + 1) == 2 * Power(q);
    PowerGrows(if t + s >= w then q + 1 else q, n / w - m / w);
    QuotientOne(Counted(w, trace, m, key), Power(n / w - m / w));
  }

  lemma {:induction false} AscendingSpread<T>(rank: T -> int, s: seq<T>, j: nat)
    requires Ascending(rank, s) && j < |s|
    ensures rank(s[j]) >= rank(s[0]) + j
  {
    if j > 0 {
      AscendingSpread(rank, s, j - 1);
    }
  }

  /** The victim of a full LRU cache was last used before all the others. */
  lemma VictimIsOld(capacity: nat, trace: seq<Key>, n: nat)
    requires capacity >= 1 && n <= |trace| && |LruAt(capacity, trace, n)| == capacity
    ensures 0 <= LastUse(trace, n, LruAt(capacity, trace, n)[0]) <= n - capacity
  {
    var recent, held := Recency(trace, n), LruAt(capacity, trace, n);
    LruHoldsMostRecent(capacity, trace, n);
    RecencyIsByLastUse(trace, n);
    var rank := LastUseRank(trace, n);
    assert held == recent[|recent| - capacity..];
    assert Ascending(rank, held);
    AscendingSpread(rank, held, capacity - 1);
    assert held[0] in recent;
    RecencyHoldsUsed(trace, n, held[0]);
  }

  lemma ColdVictimLoses(capacity: nat, window: nat, trace: seq<Key>, n: nat, victim: Key)
    requires capacity >= 1 && !MayBypass(capacity, window) && n < |trace| && victim != trace[n]
    requires 0 <= LastUse(trace, n, victim) <= n - capacity
    ensures
      var t := RecordFreq(window, TinyAt(capacity, window, trace, n), trace[n]);
      Freq(t.freqs, trace[n]) >= Freq(t.freqs, victim)
  {
    var w, s := Period(window), TinyAt(capacity, window, trace, n);
    ColdCountsOnce(capacity, window, trace, LastUse(trace, n, victim) + 1, n, victim);
    CountersAlwaysAgree(capacity, window, trace, n);
    assert Freq(s.freqs, victim) == Counted(w, trace, n, victim);
    RecordCounts(window, s, trace[n], victim);
    RecordCounts(window, s, trace[n], trace[n]);
  }

  lemma LruAccess(capacity: nat, trace: seq<Key>, n: nat)
    requires capacity >= 1 && n < |trace|
    ensures LruAt(capacity, trace, n + 1) == LruStep(capacity, LruAt(capacity, trace, n), trace[n])
    ensures |LruAt(capacity, trace, n)| <= capacity
  {
    LruIsAdmitting(capacity, trace);
  }

  lemma NothingHeld(capacity: nat, trace: seq<Key>)
    requires capacity >= 1
    ensures LruAt(capacity, trace, 0) == []
  {
  }

  /** Below the condition TinyLFU admits every key, and so is LRU. */
  lemma {:induction false} TinyIsLru(capacity: nat, window: nat, trace: seq<Key>, n: nat)
    requires capacity >= 1 && !MayBypass(capacity, window) && n <= |trace|
    ensures TinyAt(capacity, window, trace, n).cache == LruAt(capacity, trace, n)
  {
    hide TinyAt, LruAt, RecordFreq, Freq, MayBypass, MissesUpTo, MoveToEnd, LastUse, CountersAgree;
    if n == 0 {
      NothingCounted(capacity, window, trace);
      NothingHeld(capacity, trace);
    } else {
      var cache, key := LruAt(capacity, trace, n - 1), trace[n - 1];
      TinyIsLru(capacity, window, trace, n - 1);
      TinyAccess(capacity, window, trace, n - 1);
      LruAccess(capacity, trace, n - 1);
      if key !in cache && |cache| == capacity {
        VictimIsOld(capacity, trace, n - 1);
        ColdVictimLoses(capacity, window, trace, n - 1, cache[0]);
      }
    }
  }

  /** So it then misses exactly as often. */
  lemma TinyMissesLikeLru(capacity: nat, window: nat, trace: seq<Key>)
    requires capacity >= 1 && !MayBypass(capacity, window)
    ensures TinyMisses(capacity, window, trace) == LruMisses(capacity, trace)
  {
    var p, q := TinyContents(capacity, window, trace), LruContents(capacity, trace);
    forall i | 0 <= i <= |trace| ensures p[i] == q[i] {
      TinyIsLru(capacity, window, trace, i);
    }
    assert p == q;
  }

  // ---------------------------------------------------------------- a trace that gets a key rejected

  /** Where the run of the warm key ends: late enough for its counter to reach its bound, and so
      placed that the newcomer's own access is one that decays. */
  function RunEnd(capacity: nat, w: nat): (n: nat)
    requires capacity >= 1 && w >= 1
    ensures n >= capacity && n >= (((capacity - 1) / w) + 1) * w
  {
    var q, s := (capacity - 1) / w, (capacity - 1) % w;
    JoinIndex(capacity - 1, w);
    MulMonotone(q + 1, q + 1 + w, w);
    assert (q + 1) * w == q * w + w;
    (q + 1 + w) * w + (w - 1 - s)
  }

  /** The other keys once, the warm key `(0, 0)` until `run`, the others again, a newcomer, and then
      all keys but the newcomer. */
  function WitnessKey(capacity: nat, run: nat, i: nat): Key
    requires capacity >= 1
  {
    if i < capacity - 1 then (0, i + 1)
    else if i < run then (0, 0)
    else if i < run + capacity - 1 then (0, i - run + 1)
    else if i == run + capacity - 1 then (0, capacity)
    else (0, i - run - capacity)
  }

  function WitnessTrace(capacity: nat, run: nat): (trace: seq<Key>)
    requires capacity >= 1
    ensures |trace| == run + 2 * capacity
    ensures forall i :: 0 <= i < |trace| ==> trace[i] == WitnessKey(capacity, run, i)
  {
    seq(run + 2 * capacity, i requires 0 <= i < run + 2 * capacity => WitnessKey(capacity, run, i))
  }

  /** What TinyLFU holds, oldest key first, before access `n` and up to the newcomer. */
  function WitnessCache(capacity: nat, run: nat, n: nat): seq<Key>
    requires 1 <= capacity <= run && n <= run + capacity - 1
  {
    if n < capacity then Keys(1, n + 1)
    else if n <= run then Keys(1, capacity) + Keys(0, 1)
    else Keys(n - run + 1, capacity) + Keys(0, n - run + 1)
  }

  lemma MoveFrontToEnd(order: seq<Key>)
    requires order != []
    ensures MoveToEnd(order, order[0]) == order[1..] + [order[0]]
  {
  }

  lemma MoveEndToEnd(order: seq<Key>, key: Key)
    requires key !in order
    ensures MoveToEnd(order + [key], key) == order + [key]
  {
    WithoutConcat(order, [key], key);
  }

  lemma WitnessCacheStep(capacity: nat, run: nat, n: nat)
    requires 1 <= capacity <= run && n < run + capacity - 1
    ensures
      var cache, key := WitnessCache(capacity, run, n), WitnessKey(capacity, run, n);
      && (key in cache <==> n >= capacity)
      && (n < capacity ==> |cache| == n)
      && WitnessCache(capacity, run, n + 1) == if n >= capacity then MoveToEnd(cache, key) else cache + [key]
  {
    var cache, key := WitnessCache(capacity, run, n), WitnessKey(capacity, run, n);
    if n < capacity {
    } else if n < run {
      assert cache == Keys(1, capacity) + [key];
      MoveEndToEnd(Keys(1, capacity), key);
    } else {
      MoveFrontToEnd(cache);
    }
  }

  /** Up to the newcomer nothing is evicted: TinyLFU misses each key once. */
  ghost predicate WarmedUp(capacity: nat, window: nat, run: nat, n: nat)
    requires 1 <= capacity <= run && n <= run + capacity - 1
  {
    var trace := WitnessTrace(capacity, run);
    && TinyAt(capacity, window, trace, n).cache == WitnessCache(capacity, run, n)
    && MissesUpTo(trace, TinyContents(capacity, window, trace), n) == if n < capacity then n else capacity
  }

  lemma WarmUpStep(capacity: nat, window: nat, run: nat, n: nat)
    requires 1 <= capacity <= run && n < run + capacity - 1 && WarmedUp(capacity, window, run, n)
    ensures WarmedUp(capacity, window, run, n + 1)
  {
    hide TinyAt, RecordFreq, Freq, WitnessKey, WitnessCache, MoveToEnd, MissesUpTo;
    WitnessCacheStep(capacity, run, n);
    TinyAccess(capacity, window, WitnessTrace(capacity, run), n);
  }

  lemma WarmUpStarts(capacity: nat, window: nat, run: nat)
    requires 1 <= capacity <= run
    ensures WarmedUp(capacity, window, run, 0)
  {
    hide TinyAt, CountersAgree;
    NothingCounted(capacity, window, WitnessTrace(capacity, run));
    assert WitnessCache(capacity, run, 0) == [];
  }

  lemma {:induction false} WitnessWarmsUp(capacity: nat, window: nat, run: nat, n: nat)
    requires 1 <= capacity <= run && n <= run + capacity - 1
    ensures WarmedUp(capacity, window, run, n)
  {
    hide WarmedUp;
    if n == 0 {
      WarmUpStarts(capacity, window, run);
    } else {
      WitnessWarmsUp(capacity, window, run, n - 1);
      WarmUpStep(capacity, window, run, n - 1);
    }
  }

  lemma WholeNumbers(p: nat, x: nat)
    requires p >= 1 && x >= 2 * p
    ensures x / p >= 2
  {
    DivMonotone(2 * p, x, p);
    SplitIndex(2, 0, p);
  }

  lemma RunIsPlaced(capacity: nat, w: nat)
    requires capacity >= 1 && w >= 1
    ensures
      var run, q, s := RunEnd(capacity, w), (capacity - 1) / w, (capacity - 1) % w;
      && run / w == q + 1 + w && run % w == w - 1 - s
      && (run + capacity - 1) / w == q + 1 + w + q && (run + capacity - 1) % w == w - 1
      && (q + 1) * w / w == q + 1 && (q + 1) * w % w == 0
  {
    var q, s := (capacity - 1) / w, (capacity - 1) % w;
    JoinIndex(capacity - 1, w);
    SplitIndex(q + 1, 0, w);
    SplitIndex(q + 1 + w, w - 1 - s, w);
    assert (q + 1 + w + q) * w == (q + 1 + w) * w + q * w;
    SplitIndex(q + 1 + w + q, w - 1, w);
  }

  /** The newcomer's access decays, with the warm key still counted at least twice before it. */
  lemma WarmKeyOutlasts(capacity: nat, window: nat)
    requires capacity >= 1 && MayBypass(capacity, window)
    ensures
      var w, run := Period(window), RunEnd(capacity, Period(window));
      var trace, n := WitnessTrace(capacity, run), run + capacity - 1;
      n % w == w - 1 && Counted(w, trace, n, (0, 0)) >= 2 && Counted(w, trace, n, (0, capacity)) == 0
  {
    hide RunEnd, Counted, Period, Power;
    var w, run := Period(window), RunEnd(capacity, Period(window));
    var trace, n := WitnessTrace(capacity, run), run + capacity - 1;
    RunIsPlaced(capacity, w);
    WarmKeyAtRunEnd(capacity, w);
    CountSince(w, trace, run, n, (0, 0));
    DoublePower((capacity - 1) / w);
    WholeNumbers(Power((capacity - 1) / w), Counted(w, trace, run, (0, 0)));
    NeverUsedCountsNothing(w, trace, n, (0, capacity));
  }

  lemma DoublePower(k: nat)
    ensures Power(k + 1) == 2 * Power(k)
  {
  }

  lemma WarmKeyAtRunEnd(capacity: nat, w: nat)
    requires capacity >= 1 && w >= 1
    ensures
      var run := RunEnd(capacity, w);
      Counted(w, WitnessTrace(capacity, run), run, (0, 0)) >= 2 * w - 2 - (capacity - 1) % w
  {
    RunIsPlaced(capacity, w);
    hide RunEnd, Counted;
    var run, q := RunEnd(capacity, w), (capacity - 1) / w;
    CountOfRun(w, WitnessTrace(capacity, run), (q + 1) * w, run, (0, 0));
  }

  lemma {:induction false} NeverUsedCountsNothing(w: nat, trace: seq<Key>, n: nat, key: Key)
    requires w >= 1 && n <= |trace| && forall i :: 0 <= i < n ==> trace[i] != key
    ensures Counted(w, trace, n, key) == 0
  {
    if n > 0 {
      NeverUsedCountsNothing(w, trace, n - 1, key);
    }
  }

  /** So the newcomer, counted once, finds itself behind it. */
  lemma NewcomerIsBehind(capacity: nat, window: nat)
    requires capacity >= 1 && MayBypass(capacity, window)
    ensures
      var run := RunEnd(capacity, Period(window));
      var trace, n := WitnessTrace(capacity, run), run + capacity - 1;
      var t := RecordFreq(window, TinyAt(capacity, window, trace, n), trace[n]);
      trace[n] == (0, capacity) && Freq(t.freqs, (0, capacity)) < Freq(t.freqs, (0, 0))
  {
    hide MayBypass, RunEnd, TinyAt, RecordFreq, Freq, Counted;
    var w, run := Period(window), RunEnd(capacity, Period(window));
    var trace, n := WitnessTrace(capacity, run), run + capacity - 1;
    var s := TinyAt(capacity, window, trace, n);
    WarmKeyOutlasts(capacity, window);
    CountersAlwaysAgree(capacity, window, trace, n);
    assert Freq(s.freqs, (0, 0)) == Counted(w, trace, n, (0, 0));
    assert Freq(s.freqs, (0, capacity)) == Counted(w, trace, n, (0, capacity));
    WrapStep(n, w);
    RecordCounts(window, s, trace[n], (0, 0));
    RecordCounts(window, s, trace[n], (0, capacity));
  }

  /** And is rejected. */
  lemma NewcomerIsRejected(capacity: nat, window: nat)
    requires capacity >= 1 && MayBypass(capacity, window)
    ensures
      var run := RunEnd(capacity, Period(window));
      var trace, n := WitnessTrace(capacity, run), run + capacity;
      && TinyAt(capacity, window, trace, n).cache == Keys(0, capacity)
      && MissesUpTo(trace, TinyContents(capacity, window, trace), n) == capacity + 1
  {
    hide MayBypass, RunEnd, Period, TinyAt, RecordFreq, Freq, MissesUpTo, WitnessCache, WitnessKey;
    var run := RunEnd(capacity, Period(window));
    var n := run + capacity - 1;
    TinyAccess(capacity, window, WitnessTrace(capacity, run), n);
    WitnessWarmsUp(capacity, window, run, n);
    FullCacheAtNewcomer(capacity, run);
    NewcomerIsBehind(capacity, window);
  }

  lemma FullCacheAtNewcomer(capacity: nat, run: nat)
    requires 1 <= capacity <= run
    ensures WitnessCache(capacity, run, run + capacity - 1) == Keys(0, capacity)
  {
  }

  /** From there on every access hits, so TinyLFU misses each key once. */
  lemma {:induction false} RejectionIsFree(capacity: nat, window: nat, n: nat)
    requires capacity >= 1 && MayBypass(capacity, window)
    requires RunEnd(capacity, Period(window)) + capacity <= n <= RunEnd(capacity, Period(window)) + 2 * capacity
    ensures
      var trace := WitnessTrace(capacity, RunEnd(capacity, Period(window)));
      && Distinct(TinyAt(capacity, window, trace, n).cache)
      && Elements(TinyAt(capacity, window, trace, n).cache) == Elements(Keys(0, capacity))
      && MissesUpTo(trace, TinyContents(capacity, window, trace), n) <= capacity + 1
  {
    hide MayBypass, TinyAt, RecordFreq, Freq, MissesUpTo, RunEnd, Period, WitnessCache;
    var run := RunEnd(capacity, Period(window));
    var trace := WitnessTrace(capacity, run);
    TinyAccess(capacity, window, trace, n - 1);
    if n == run + capacity {
      NewcomerIsRejected(capacity, window);
    } else {
      RejectionIsFree(capacity, window, n - 1);
      var cache := TinyAt(capacity, window, trace, n - 1).cache;
      assert trace[n - 1] == Keys(0, capacity)[n - 1 - run - capacity];
      assert trace[n - 1] in Elements(cache);
      MoveToEndKeeps(cache, trace[n - 1]);
    }
  }

  // ---------------------------------------------------------------- what an admitting policy pays there

  /** No policy holds a key before its first use. */
  lemma {:induction false} HoldsOnlyUsed(trace: seq<Key>, capacity: nat, contents: seq<set<Key>>, n: nat)
    requires IsSchedule(trace, capacity, contents) && n <= |trace|
    ensures contents[n] <= Elements(trace[..n])
  {
    if n > 0 {
      HoldsOnlyUsed(trace, capacity, contents, n - 1);
      assert ScheduleStep(trace, capacity, n - 1, contents[n - 1], contents[n]);
      assert Elements(trace[..n]) == Elements(trace[..n - 1]) + {trace[n - 1]};
    }
  }

  /** So every first use misses. */
  lemma {:induction false} FirstUsesMiss(trace: seq<Key>, capacity: nat, contents: seq<set<Key>>, n: nat)
    requires IsSchedule(trace, capacity, contents) && n <= |trace|
    ensures MissesUpTo(trace, contents, n) >= |Elements(trace[..n])|
  {
    if n == 0 {
      assert Elements(trace[..0]) == {};
    } else {
      FirstUsesMiss(trace, capacity, contents, n - 1);
      HoldsOnlyUsed(trace, capacity, contents, n - 1);
      ElementsGrow(trace, n - 1);
    }
  }

  /** A key that is used but absent costs a miss. */
  lemma {:induction false} AbsentKeyMisses(trace: seq<Key>, capacity: nat, contents: seq<set<Key>>, n: nat, j: nat)
    requires IsSchedule(trace, capacity, contents) && n <= j < |trace| && trace[j] !in contents[n]
    ensures MissesUpTo(trace, contents, j + 1) > MissesUpTo(trace, contents, n)
    decreases j - n
  {
    if trace[n] !in contents[n] {
      MissesNeverFall(trace, contents, n + 1, j + 1);
    } else {
      assert ScheduleStep(trace, capacity, n, contents[n], contents[n + 1]);
      AbsentKeyMisses(trace, capacity, contents, n + 1, j);
    }
  }

  lemma {:induction false} MissesNeverFall(trace: seq<Key>, contents: seq<set<Key>>, m: nat, n: nat)
    requires m <= n <= |trace| < |contents|
    ensures MissesUpTo(trace, contents, m) <= MissesUpTo(trace, contents, n)
  {
    if m < n {
      MissesNeverFall(trace, contents, m, n - 1);
    }
  }

  /** A cache of `capacity` keys with the newcomer among them lacks one of the others. */
  lemma SomeKeyAbsent(capacity: nat, held: set<Key>) returns (i: nat)
    requires (0, capacity) in held && |held| <= capacity
    ensures i < capacity && (0, i) !in held
  {
    var keys := Keys(0, capacity + 1);
    if Elements(keys) <= held {
      KeysAreDistinct(0, capacity + 1);
      SubsetSize(Elements(keys), held);
      assert false;
    }
    var key :| key in Elements(keys) && key !in held;
    i := key.1;
  }

  /** The newcomer's place costs an admitting policy one of the keys that follow. */
  lemma AdmissionCosts(capacity: nat, run: nat, contents: seq<set<Key>>)
    requires 1 <= capacity <= run && IsAdmitting(WitnessTrace(capacity, run), capacity, contents)
    ensures Misses(WitnessTrace(capacity, run), contents) >= capacity + 2
  {
    hide MissesUpTo;
    var trace, n := WitnessTrace(capacity, run), run + capacity;
    FirstUsesMiss(trace, capacity, contents, n);
    AllUsedByRun(capacity, run);
    KeysAreDistinct(0, capacity + 1);
    SubsetSize(Elements(Keys(0, capacity + 1)), Elements(trace[..n]));
    assert trace[n - 1] == (0, capacity) && (0, capacity) in contents[n];
    assert ScheduleStep(trace, capacity, n - 1, contents[n - 1], contents[n]);
    var i := SomeKeyAbsent(capacity, contents[n]);
    assert trace[n + i] == (0, i);
    AbsentKeyMisses(trace, capacity, contents, n, n + i);
    MissesNeverFall(trace, contents, n + i + 1, |trace|);
  }

  lemma AllUsedByRun(capacity: nat, run: nat)
    requires 1 <= capacity <= run
    ensures Elements(Keys(0, capacity + 1)) <= Elements(WitnessTrace(capacity, run)[..run + capacity])
  {
    var trace := WitnessTrace(capacity, run)[..run + capacity];
    forall key | key in Keys(0, capacity + 1) ensures key in trace {
      var i: nat :| i <= capacity && key == Keys(0, capacity + 1)[i];
      if i == 0 {
        assert trace[run - 1] == key;
      } else if i < capacity {
        assert trace[i - 1] == key;
      } else {
        assert trace[run + capacity - 1] == key;
      }
    }
  }

  /** Where TinyLFU may reject a key, rejecting can pay: it misses less than the oracle. */
  lemma TinyLfuBeatsOracle(capacity: nat, window: nat)
    requires capacity >= 1 && MayBypass(capacity, window)
    ensures
      var trace := WitnessTrace(capacity, RunEnd(capacity, Period(window)));
      TinyMisses(capacity, window, trace) < OracleMisses(trace, capacity)
  {
    var run := RunEnd(capacity, Period(window));
    var trace := WitnessTrace(capacity, run);
    var oracle := BeladyRun(trace, capacity, |trace|);
    RejectionIsFree(capacity, window, |trace|);
    BeladyIsAdmitting(trace, capacity, oracle);
    AdmissionCosts(capacity, run, oracle);
  }

  // ---------------------------------------------------------------- the exact conditions

  ghost predicate OracleBoundsTiny(capacity: nat, window: nat)
    requires capacity >= 1
  {
    forall trace :: OracleMisses(trace, capacity) <= TinyMisses(capacity, window, trace)
  }

  /** The oracle bounds TinyLFU on every trace exactly when TinyLFU can reject no key. */
  lemma OracleBoundsTinyLfu(capacity: nat, window: nat)
    requires capacity >= 1
    ensures OracleBoundsTiny(capacity, window) <==> !MayBypass(capacity, window)
  {
    if MayBypass(capacity, window) {
      TinyLfuBeatsOracle(capacity, window);
    } else {
      forall trace ensures OracleMisses(trace, capacity) <= TinyMisses(capacity, window, trace) {
        TinyMissesLikeLru(capacity, window, trace);
        OracleBoundsLru(trace, capacity);
      }
    }
  }

  /** And that is exactly when its frequency filter changes no miss count at all. */
  lemma FilterMattersIff(capacity: nat, window: nat)
    requires capacity >= 1
    ensures MayBypass(capacity, window) <==>
      exists trace :: TinyMisses(capacity, window, trace) != LruMisses(capacity, trace)
  {
    if MayBypass(capacity, window) {
      var trace := WitnessTrace(capacity, RunEnd(capacity, Period(window)));
      TinyLfuBeatsOracle(capacity, window);
      OracleBoundsLru(trace, capacity);
    } else {
      forall trace ensures TinyMisses(capacity, window, trace) == LruMisses(capacity, trace) {
        TinyMissesLikeLru(capacity, window, trace);
      }
    }
  }

  /** A window longer than the cache always lets TinyLFU beat the oracle on some trace; one of
      a single access never does. */
  lemma WideWindowsBypass(capacity: nat, window: nat)
    requires capacity >= 1
    ensures window > capacity ==> !OracleBoundsTiny(capacity, window)
    ensures window <= 1 ==> OracleBoundsTiny(capacity, window)
  {
    OracleBoundsTinyLfu(capacity, window);
    if window > capacity {
      SplitIndex(0, capacity - 1, window);
      assert Power(1) == 2;
    } else if window <= 1 {
      SplitIndex(capacity - 1, 0, 1);
    }
  }

  /** With one slot these are the only cases. */
  lemma OneSlotBypasses(window: nat)
    ensures OracleBoundsTiny(1, window) <==> window <= 1
  {
    WideWindowsBypass(1, window);
  }

  lemma DefaultWindowCondition(capacity: nat)
    requires capacity >= 1
    ensures MayBypass(capacity, DEFAULT_WINDOW) <==> capacity <= 133615
  {
    var q := (capacity - 1) / 10000;
    assert Power(13) == 8192 && Power(14) == 16384 && Power(15) == 32768;
    if q <= 12 {
      PowerGrows(q + 1, 13);
    } else if q >= 14 {
      PowerGrows(15, q + 1);
    }
  }

  /** With the window the source defaults to, the oracle bounds TinyLFU from 133616 slots on. */
  lemma DefaultWindowBypasses(capacity: nat)
    requires capacity >= 1
    ensures OracleBoundsTiny(capacity, DEFAULT_WINDOW) <==> capacity >= 133616
  {
    DefaultWindowCondition(capacity);
    OracleBoundsTinyLfu(capacity, DEFAULT_WINDOW);
  }
}
