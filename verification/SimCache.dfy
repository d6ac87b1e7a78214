/** The cache policies of the out-of-core simulator: LRU, segmented LRU, TinyLFU and the
    offline oracle, each as the source's object and as a step function it is proved against. */
module SimCache {
  import opened Collections
  import opened ReplacementTheory

  /** `CachePolicy.__init__` never goes below one slot. */
  function SlotCount(capacitySlots: int): nat {
    if capacitySlots < 1 then 1 else capacitySlots
  }

  function MoveToEnd(order: seq<Key>, key: Key): seq<Key> {
    Without(order, key) + [key]
  }

  lemma MoveToEndKeeps(order: seq<Key>, key: Key)
    requires Distinct(order)
    ensures Distinct(MoveToEnd(order, key))
    ensures Elements(MoveToEnd(order, key)) == Elements(order) + {key}
  {
    WithoutIsDistinct(order, key);
    AppendKeeps(Without(order, key), key);
  }

  // ---------------------------------------------------------------- LRU

  /** One access, oldest key first. */
  function LruStep(capacity: nat, order: seq<Key>, key: Key): seq<Key>
    requires capacity >= 1
  {
    if key in order then MoveToEnd(order, key)
    else (if |order| >= capacity then order[1..] else order) + [key]
  }

  function LruPolicy(capacity: nat): (seq<Key>, Key) -> seq<Key>
    requires capacity >= 1
  {
    (order, key) => LruStep(capacity, order, key)
  }

  function LruHolds(order: seq<Key>): set<Key> {
    Elements(order)
  }

  ghost function LruAt(capacity: nat, trace: seq<Key>, n: nat): seq<Key>
    requires capacity >= 1 && n <= |trace|
  {
    StateAt(LruPolicy(capacity), [], trace, n)
  }

  ghost function LruContents(capacity: nat, trace: seq<Key>): seq<set<Key>>
    requires capacity >= 1
  {
    Contents(LruPolicy(capacity), LruHolds, [], trace)
  }

  ghost function LruMisses(capacity: nat, trace: seq<Key>): nat
    requires capacity >= 1
  {
    Misses(trace, LruContents(capacity, trace))
  }

  class LruCache {
    const capacity: nat
    var hits: nat
    var misses: nat
    var evictions: nat
    var cache: seq<Key>

    ghost predicate Valid()
      reads this
    {
      && capacity >= 1
      && Distinct(cache)
      && |cache| <= capacity
      && misses == evictions + |cache|
    }

    constructor (capacitySlots: int)
      ensures Valid() && capacity == SlotCount(capacitySlots)
      ensures cache == [] && hits == 0 && misses == 0
    {
      capacity := SlotCount(capacitySlots);
      hits, misses, evictions := 0, 0, 0;
      cache := [];
    }

    method Access(key: Key) returns (hit: bool)
      requires Valid()
      modifies this
      ensures Valid()
      ensures hit == (key in old(cache))
      ensures cache == LruStep(capacity, old(cache), key)
      ensures hits == old(hits) + (if hit then 1 else 0)
      ensures misses == old(misses) + (if hit then 0 else 1)
    {
      MoveToEndKeeps(cache, key);
      if key in cache {
        cache := MoveToEnd(cache, key);
        hits := hits + 1;
        return true;
      }
      misses := misses + 1;
      if |cache| >= capacity {
        cache := cache[1..];
        evictions := evictions + 1;
      }
      cache := cache + [key];
      return false;
    }
  }

  lemma LruStepFits(capacity: nat, order: seq<Key>, key: Key)
    requires capacity >= 1 && Distinct(order) && |order| <= capacity
    ensures Distinct(LruStep(capacity, order, key)) && |LruStep(capacity, order, key)| <= capacity
    ensures Elements(LruStep(capacity, order, key)) <= Elements(order) + {key}
    ensures key in LruStep(capacity, order, key)
  {
    MoveToEndKeeps(order, key);
  }

  lemma LruIsAdmitting(capacity: nat, trace: seq<Key>)
    requires capacity >= 1
    ensures IsAdmitting(trace, capacity, LruContents(capacity, trace))
    ensures forall i :: 0 <= i <= |trace| ==>
      Distinct(LruAt(capacity, trace, i)) && |LruAt(capacity, trace, i)| <= capacity
  {
    var inv := (order: seq<Key>) => Distinct(order) && |order| <= capacity;
    forall order: seq<Key>, key | inv(order)
      ensures inv(LruStep(capacity, order, key)) && StepFits(LruPolicy(capacity), LruHolds, capacity, order, key)
    {
      LruStepFits(capacity, order, key);
      DistinctSize(LruStep(capacity, order, key));
    }
    PolicyIsSchedule(LruPolicy(capacity), LruHolds, [], inv, capacity, trace);
    forall i | 0 <= i < |trace| ensures trace[i] in LruContents(capacity, trace)[i + 1] {
      assert inv(LruAt(capacity, trace, i));
      LruStepFits(capacity, LruAt(capacity, trace, i), trace[i]);
    }
  }

  lemma OracleBoundsLru(trace: seq<Key>, capacity: nat)
    requires capacity >= 1
    ensures OracleMisses(trace, capacity) <= LruMisses(capacity, trace)
  {
    LruIsAdmitting(capacity, trace);
    OracleIsOptimal(trace, capacity, LruContents(capacity, trace));
  }

  // ---------------------------------------------------------------- segmented LRU

  datatype Segments = Segments(probationary: seq<Key>, protected: seq<Key>) {
    function Keys(): set<Key> {
      Elements(probationary) + Elements(protected)
    }

    ghost predicate Fits(probationaryCap: nat, protectedCap: nat) {
      && Distinct(probationary) && Distinct(protected)
      && Elements(probationary) !! Elements(protected)
      && |probationary| <= probationaryCap && |protected| <= protectedCap
    }
  }

  function SlruStep(probationaryCap: nat, protectedCap: nat, s: Segments, key: Key): Segments
    requires probationaryCap >= 1 && protectedCap >= 1
  {
    if key in s.protected then s.(protected := MoveToEnd(s.protected, key))
    else if key in s.probationary then
      var rest := Without(s.probationary, key);
      if |s.protected| >= protectedCap then
        var room := if |rest| >= probationaryCap then rest[1..] else rest;
        Segments(room + [s.protected[0]], s.protected[1..] + [key])
      else Segments(rest, s.protected + [key])
    else
      var room := if |s.probationary| >= probationaryCap then s.probationary[1..] else s.probationary;
      s.(probationary := room + [key])
  }

  function SlruPolicy(probationaryCap: nat, protectedCap: nat): (Segments, Key) -> Segments
    requires probationaryCap >= 1 && protectedCap >= 1
  {
    (s, key) => SlruStep(probationaryCap, protectedCap, s, key)
  }

  /** `max(1, int(capacity_slots * 0.8))`. */
  function ProtectedCap(capacitySlots: int): nat {
    SlotCount(if capacitySlots <= 0 then 0 else capacitySlots * 4 / 5)
  }

  function ProbationaryCap(capacitySlots: int): nat {
    SlotCount(capacitySlots - ProtectedCap(capacitySlots))
  }

  function SlruHolds(s: Segments): set<Key> {
    s.Keys()
  }

  ghost function SlruContents(capacitySlots: int, trace: seq<Key>): seq<set<Key>> {
    Contents(SlruPolicy(ProbationaryCap(capacitySlots), ProtectedCap(capacitySlots)),
             SlruHolds, Segments([], []), trace)
  }

  ghost function SlruMisses(capacitySlots: int, trace: seq<Key>): nat {
    Misses(trace, SlruContents(capacitySlots, trace))
  }

  class SlruCache {
    const protectedCap: nat
    const probationaryCap: nat
    var hits: nat
    var misses: nat
    var evictions: nat
    var probationary: seq<Key>
    var protected: seq<Key>

    function State(): Segments
      reads this
    {
      Segments(probationary, protected)
    }

    ghost predicate Valid()
      reads this
    {
      && probationaryCap >= 1 && protectedCap >= 1
      && State().Fits(probationaryCap, protectedCap)
      && misses == evictions + |probationary| + |protected|
    }

    constructor (capacitySlots: int)
      ensures Valid()
      ensures protectedCap == ProtectedCap(capacitySlots) && probationaryCap == ProbationaryCap(capacitySlots)
      ensures State() == Segments([], []) && hits == 0 && misses == 0
    {
      protectedCap := ProtectedCap(capacitySlots);
      probationaryCap := ProbationaryCap(capacitySlots);
      hits, misses, evictions := 0, 0, 0;
      probationary, protected := [], [];
    }

    method Access(key: Key) returns (hit: bool)
      requires Valid()
      modifies this
      ensures Valid()
      ensures hit == (key in old(State()).Keys())
      ensures State() == SlruStep(probationaryCap, protectedCap, old(State()), key)
      ensures hits == old(hits) + (if hit then 1 else 0)
      ensures misses == old(misses) + (if hit then 0 else 1)
    {
      SlruStepFits(probationaryCap, protectedCap, State(), key);
      if key in protected {
        protected := MoveToEnd(protected, key);
        hits := hits + 1;
        return true;
      }
      if key in probationary {
        probationary := Without(probationary, key);
        if |protected| >= protectedCap {
          var demoted := protected[0];
          protected := protected[1..];
          InsertProbationary(demoted);
        }
        protected := protected + [key];
        hits := hits + 1;
        return true;
      }
      misses := misses + 1;
      InsertProbationary(key);
      return false;
    }

    /** Evict the oldest probationary key if there is no room, then append. */
    method InsertProbationary(key: Key)
      requires probationaryCap >= 1
      modifies this`probationary, this`evictions
      ensures probationary
        == (if |old(probationary)| >= probationaryCap then old(probationary)[1..] else old(probationary)) + [key]
      ensures evictions + |probationary| == old(evictions) + |old(probationary)| + 1
    {
      if |probationary| >= probationaryCap {
        probationary := probationary[1..];
        evictions := evictions + 1;
      }
      probationary := probationary + [key];
    }
  }

  lemma SlruStepFits(probationaryCap: nat, protectedCap: nat, s: Segments, key: Key)
    requires probationaryCap >= 1 && protectedCap >= 1 && s.Fits(probationaryCap, protectedCap)
    ensures SlruStep(probationaryCap, protectedCap, s, key).Fits(probationaryCap, protectedCap)
    ensures SlruStep(probationaryCap, protectedCap, s, key).Keys() <= s.Keys() + {key}
    ensures key in SlruStep(probationaryCap, protectedCap, s, key).Keys()
    ensures key in s.Keys() ==> SlruStep(probationaryCap, protectedCap, s, key).Keys() == s.Keys()
  {
    if key in s.protected {
      MoveToEndKeeps(s.protected, key);
    } else if key in s.probationary {
      WithoutIsDistinct(s.probationary, key);
      if |s.protected| >= protectedCap {
        var demoted, rest := s.protected[0], Without(s.probationary, key);
        PopFrontKeeps(s.protected);
        assert demoted in Elements(s.protected) && demoted !in Elements(rest);
        AppendKeeps(rest, demoted);
        AppendKeeps(s.protected[1..], key);
      } else {
        AppendKeeps(s.protected, key);
      }
    } else if |s.probationary| >= probationaryCap {
      PopFrontKeeps(s.probationary);
      AppendKeeps(s.probationary[1..], key);
    } else {
      AppendKeeps(s.probationary, key);
    }
  }

  lemma SlruIsAdmitting(capacitySlots: int, trace: seq<Key>)
    ensures IsAdmitting(trace, ProbationaryCap(capacitySlots) + ProtectedCap(capacitySlots),
                        SlruContents(capacitySlots, trace))
  {
    var a, b := ProbationaryCap(capacitySlots), ProtectedCap(capacitySlots);
    var inv := (s: Segments) => s.Fits(a, b);
    forall s: Segments, key | inv(s)
      ensures inv(SlruStep(a, b, s, key)) && StepFits(SlruPolicy(a, b), SlruHolds, a + b, s, key)
    {
      SlruStepFits(a, b, s, key);
      DistinctSize(SlruStep(a, b, s, key).probationary);
      DistinctSize(SlruStep(a, b, s, key).protected);
    }
    PolicyIsSchedule(SlruPolicy(a, b), SlruHolds, Segments([], []), inv, a + b, trace);
    forall i | 0 <= i < |trace| ensures trace[i] in SlruContents(capacitySlots, trace)[i + 1] {
      var s := StateAt(SlruPolicy(a, b), Segments([], []), trace, i);
      assert inv(s);
      SlruStepFits(a, b, s, trace[i]);
    }
  }

  // ---------------------------------------------------------------- TinyLFU

  datatype Tiny = Tiny(cache: seq<Key>, freqs: map<Key, nat>, totalCount: nat)

  /** A missing counter reads as zero. */
  function Freq(freqs: map<Key, nat>, key: Key): nat {
    if key in freqs then freqs[key] else 0
  }

  /** Halve every counter, dropping those that reach zero. */
  function Decay(freqs: map<Key, nat>): map<Key, nat> {
    map k | k in freqs && freqs[k] / 2 != 0 :: freqs[k] / 2
  }

  function RecordFreq(window: nat, s: Tiny, key: Key): Tiny {
    var counted := s.freqs[key := Freq(s.freqs, key) + 1];
    if s.totalCount + 1 >= window then Tiny(s.cache, Decay(counted), 0) else Tiny(s.cache, counted, s.totalCount + 1)
  }

  function TinyStep(capacity: nat, window: nat, s: Tiny, key: Key): Tiny
    requires capacity >= 1
  {
    var t := RecordFreq(window, s, key);
    if key in t.cache then t.(cache := MoveToEnd(t.cache, key))
    else if |t.cache| < capacity then t.(cache := t.cache + [key])
    else if Freq(t.freqs, key) >= Freq(t.freqs, t.cache[0]) then t.(cache := t.cache[1..] + [key])
    else t
  }

  function TinyPolicy(capacity: nat, window: nat): (Tiny, Key) -> Tiny
    requires capacity >= 1
  {
    (s, key) => TinyStep(capacity, window, s, key)
  }

  function TinyHolds(s: Tiny): set<Key> {
    Elements(s.cache)
  }

  ghost function TinyContents(capacity: nat, window: nat, trace: seq<Key>): seq<set<Key>>
    requires capacity >= 1
  {
    Contents(TinyPolicy(capacity, window), TinyHolds, Tiny([], map[], 0), trace)
  }

  ghost function TinyMisses(capacity: nat, window: nat, trace: seq<Key>): nat
    requires capacity >= 1
  {
    Misses(trace, TinyContents(capacity, window, trace))
  }

  class TinyLfuCache {
    const capacity: nat
    const window: nat
    var hits: nat
    var misses: nat
    var evictions: nat
    var cache: seq<Key>
    var freqs: map<Key, nat>
    var totalCount: nat

    function State(): Tiny
      reads this
    {
      Tiny(cache, freqs, totalCount)
    }

    /** A rejected candidate also counts as an eviction. */
    ghost predicate Valid()
      reads this
    {
      capacity >= 1 && Distinct(cache) && |cache| <= capacity && misses == evictions + |cache|
    }

    constructor (capacitySlots: int, sampleWindow: nat)
      ensures Valid() && capacity == SlotCount(capacitySlots) && window == sampleWindow
      ensures State() == Tiny([], map[], 0) && hits == 0 && misses == 0
    {
      capacity, window := SlotCount(capacitySlots), sampleWindow;
      hits, misses, evictions := 0, 0, 0;
      cache, freqs, totalCount := [], map[], 0;
    }

    method Access(key: Key) returns (hit: bool)
      requires Valid()
      modifies this
      ensures Valid()
      ensures hit == (key in old(cache))
      ensures State() == TinyStep(capacity, window, old(State()), key)
      ensures hits == old(hits) + (if hit then 1 else 0)
      ensures misses == old(misses) + (if hit then 0 else 1)
    {
      MoveToEndKeeps(cache, key);
      Record(key);
      if key in cache {
        cache := MoveToEnd(cache, key);
        hits := hits + 1;
        return true;
      }
      misses := misses + 1;
      if |cache| < capacity {
        cache := cache + [key];
        return false;
      }
      if Freq(freqs, key) >= Freq(freqs, cache[0]) {
        cache := cache[1..] + [key];
      }
      evictions := evictions + 1;
      return false;
    }

    /** `_record_freq`. */
    method Record(key: Key)
      modifies this`freqs, this`totalCount
      ensures State() == RecordFreq(window, old(State()), key)
    {
      freqs := freqs[key := Freq(freqs, key) + 1];
      totalCount := totalCount + 1;
      if totalCount >= window {
        freqs := Decay(freqs);
        totalCount := 0;
      }
    }
  }

  lemma TinyIsSchedule(capacity: nat, window: nat, trace: seq<Key>)
    requires capacity >= 1
    ensures IsSchedule(trace, capacity, TinyContents(capacity, window, trace))
  {
    var inv := (s: Tiny) => Distinct(s.cache) && |s.cache| <= capacity;
    forall s: Tiny, key | inv(s)
      ensures inv(TinyStep(capacity, window, s, key))
      ensures StepFits(TinyPolicy(capacity, window), TinyHolds, capacity, s, key)
    {
      MoveToEndKeeps(s.cache, key);
      DistinctSize(TinyStep(capacity, window, s, key).cache);
    }
    PolicyIsSchedule(TinyPolicy(capacity, window), TinyHolds, Tiny([], map[], 0), inv, capacity, trace);
  }

  // ---------------------------------------------------------------- the oracle

  /** The positions of `key` from `i` on, latest first: the list the oracle pops from. */
  function Remaining(trace: seq<Key>, i: nat, key: Key): (r: seq<nat>)
    requires i <= |trace|
    ensures r == [] <==> NextUse(trace, i, key) == |trace|
    ensures r != [] ==> r[|r| - 1] == NextUse(trace, i, key)
    decreases |trace| - i
  {
    if i == |trace| then []
    else if trace[i] == key then Remaining(trace, i + 1, key) + [i]
    else Remaining(trace, i + 1, key)
  }

  function Reversed<T>(s: seq<T>): seq<T> {
    if s == [] then [] else Reversed(s[1..]) + [s[0]]
  }

  /** The positions of `key` among the first `n` accesses, earliest first. */
  function Positions(trace: seq<Key>, n: nat, key: Key): seq<nat>
    requires n <= |trace|
  {
    if n == 0 then []
    else if trace[n - 1] == key then Positions(trace, n - 1, key) + [n - 1]
    else Positions(trace, n - 1, key)
  }

  lemma ReversedConcat<T>(a: seq<T>, b: seq<T>)
    ensures Reversed(a + b) == Reversed(b) + Reversed(a)
  {
    if a == [] {
      assert a + b == b;
    } else {
      assert (a + b)[1..] == a[1..] + b;
    }
  }

  lemma {:induction false} ReversedPositions(trace: seq<Key>, n: nat, key: Key)
    requires n <= |trace|
    ensures Remaining(trace, 0, key) == Remaining(trace, n, key) + Reversed(Positions(trace, n, key))
  {
    if n > 0 {
      ReversedPositions(trace, n - 1, key);
      if trace[n - 1] == key {
        var last: seq<nat>, done, left := [n - 1], Reversed(Positions(trace, n - 1, key)), Remaining(trace, n, key);
        ReversedConcat(Positions(trace, n - 1, key), last);
        assert Reversed(last) == last;
        assert (left + last) + done == left + (last + done);
      }
    }
  }

  /** The list stored for a key; an absent key has none. */
  function Indices(future: map<Key, seq<nat>>, key: Key): seq<nat> {
    if key in future then future[key] else []
  }

  /** Drop the next position of `key` if it is `step`. */
  function PopOccurrence(future: map<Key, seq<nat>>, key: Key, step: nat): map<Key, seq<nat>> {
    var due := Indices(future, key);
    if due != [] && due[|due| - 1] == step then future[key := due[..|due| - 1]] else future
  }

  /** The stored lists are exactly what remains of the trace from position `i`. */
  ghost predicate Aligned(trace: seq<Key>, i: nat, future: map<Key, seq<nat>>) {
    i <= |trace| && forall key :: Indices(future, key) == Remaining(trace, i, key)
  }

  /** Accessing the trace in order keeps the stored lists aligned with it. */
  lemma PopKeepsAlignment(trace: seq<Key>, i: nat, future: map<Key, seq<nat>>)
    requires i < |trace| && Aligned(trace, i, future)
    ensures Aligned(trace, i + 1, PopOccurrence(future, trace[i], i))
  {
    forall key ensures Indices(PopOccurrence(future, trace[i], i), key) == Remaining(trace, i + 1, key) {
      assert Indices(future, key) == Remaining(trace, i, key);
      if key == trace[i] {
        var left, last := Remaining(trace, i + 1, key), [i];
        assert Remaining(trace, i, key) == left + last && (left + last)[..|left|] == left;
      }
    }
  }

  /** Nothing in `cache` is due later than `victim`, by the stored lists. */
  ghost predicate LooksFurthest(future: map<Key, seq<nat>>, cache: set<Key>, victim: Key) {
    && victim in cache
    && var due := Indices(future, victim);
       due == [] || forall r :: r in cache ==>
         var other := Indices(future, r); other != [] && other[|other| - 1] <= due[|due| - 1]
  }

  /** One access of the oracle, `future` being what the lists hold after the pop. */
  ghost predicate OracleStep(capacity: nat, future: map<Key, seq<nat>>, before: set<Key>, key: Key, after: set<Key>) {
    if key in before then after == before
    else if |before| < capacity then after == before + {key}
    else exists victim :: LooksFurthest(future, before, victim) && after == before - {victim} + {key}
  }

  class OracleCache {
    const capacity: nat
    const fullTrace: seq<Key>
    var hits: nat
    var misses: nat
    var evictions: nat
    var cache: set<Key>
    var futureIndices: map<Key, seq<nat>>

    ghost predicate Valid()
      reads this
    {
      capacity >= 1 && |cache| <= capacity && misses == evictions + |cache|
    }

    constructor (capacitySlots: int, trace: seq<Key>)
      ensures Valid() && capacity == SlotCount(capacitySlots) && fullTrace == trace
      ensures Aligned(trace, 0, futureIndices) && cache == {} && hits == 0 && misses == 0
    {
      capacity, fullTrace := SlotCount(capacitySlots), trace;
      hits, misses, evictions := 0, 0, 0;
      cache := {};
      var future: map<Key, seq<nat>> := map[];
      for i := 0 to |trace|
        invariant forall key :: Indices(future, key) == Positions(trace, i, key)
      {
        future := future[trace[i] := Indices(future, trace[i]) + [i]];
      }
      futureIndices := map key | key in future :: Reversed(future[key]);
      new;
      forall key ensures Indices(futureIndices, key) == Remaining(fullTrace, 0, key) {
        ReversedPositions(trace, |trace|, key);
        assert Indices(futureIndices, key) == Reversed(Indices(future, key));
      }
    }

    method Access(key: Key, step: nat) returns (hit: bool)
      requires Valid()
      modifies this
      ensures Valid()
      ensures futureIndices == PopOccurrence(old(futureIndices), key, step)
      ensures hit == (key in old(cache))
      ensures OracleStep(capacity, futureIndices, old(cache), key, cache)
      ensures hits == old(hits) + (if hit then 1 else 0)
      ensures misses == old(misses) + (if hit then 0 else 1)
    {
      futureIndices := PopOccurrence(futureIndices, key, step);
      if key in cache {
        hits := hits + 1;
        return true;
      }
      misses := misses + 1;
      if |cache| < capacity {
        cache := cache + {key};
        return false;
      }
      var furthestKey := FindFurthest();
      cache := cache - {furthestKey} + {key};
      evictions := evictions + 1;
      return false;
    }

    /** The eviction scan, visiting the residents in any order. */
    method FindFurthest() returns (furthestKey: Key)
      requires cache != {}
      ensures LooksFurthest(futureIndices, cache, furthestKey)
    {
      var unseen := cache;
      var furthestStep: int := -1;
      furthestKey :| furthestKey in cache;
      while unseen != {}
        invariant unseen <= cache && furthestKey in cache
        invariant unseen != cache ==> furthestStep >= 0
        invariant furthestStep >= 0 ==>
          var due := Indices(futureIndices, furthestKey); due != [] && due[|due| - 1] == furthestStep
        invariant forall r :: r in cache && r !in unseen ==>
          var other := Indices(futureIndices, r); other != [] && other[|other| - 1] <= furthestStep
      {
        var resident :| resident in unseen;
        unseen := unseen - {resident};
        var indices := Indices(futureIndices, resident);
        if indices == [] {
          furthestKey := resident;
          return;
        }
        var nextStep := indices[|indices| - 1];
        if nextStep > furthestStep {
          furthestStep := nextStep;
          furthestKey := resident;
        }
      }
    }
  }

  /** When the lists are aligned with the trace, the scan finds Belady's victim. */
  lemma LooksFurthestIsFurthest(trace: seq<Key>, i: nat, future: map<Key, seq<nat>>, cache: set<Key>, victim: Key)
    requires Aligned(trace, i, future) && LooksFurthest(future, cache, victim)
    ensures IsFurthest(trace, i, cache, victim)
  {
    hide Indices, Remaining, NextUse;
    forall r | r in cache ensures NextUse(trace, i, r) <= NextUse(trace, i, victim) {
      assert Indices(future, r) == Remaining(trace, i, r);
      assert Indices(future, victim) == Remaining(trace, i, victim);
    }
  }
}
