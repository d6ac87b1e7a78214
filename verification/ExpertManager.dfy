/** Expert fetches through the VRAM hot tier, the RAM cache and the bank file. */
module ExpertManager {
  import opened Collections
  import opened ReplacementTheory
  import opened SimCache
  import opened ExpertCache
  import opened SlruTheory

  type Byte = bv8

  /** What a fetch gives; the cache raises a key error on a promotion it has no protected tier for. */
  datatype Fetch<+E> = Expert(value: E) | Unreadable | CacheError

  /** The pinned tier's settings. */
  datatype HotTier = HotTier(onCuda: bool, threshold: int, capacity: int) {
    /** Whether an expert used `count` times joins `pinned` others. */
    predicate Pins(count: nat, pinned: nat) {
      onCuda && count >= threshold && pinned < capacity
    }
  }

  /** One access of the RAM tier that raises nothing: an SLRU step, or an arrival where there is no
      protected tier. */
  function RamStep(probationaryCap: int, protectedCap: int, s: Segments, key: Key): Segments {
    if probationaryCap >= 1 && protectedCap >= 1 then SlruStep(probationaryCap, protectedCap, s, key)
    else Segments(AfterArrival(probationaryCap, s.probationary, key), [])
  }

  class ExpertManager<E> {
    const bank: seq<Byte>
    /** Where a record lies; nothing for an expert the package does not hold. */
    const byteRange: Key -> Option<(nat, nat)>
    const decode: seq<Byte> -> E
    const tier: HotTier
    const ramCache: BoundedSLRUCache<E>
    var hotTier: map<Key, E>
    var frequency: map<Key, nat>

    /** What the bank holds for a key. */
    function Direct(key: Key): E
      requires byteRange(key).Some?
    {
      decode(Cut(bank, byteRange(key).value.0, byteRange(key).value.1))
    }

    /** The entry decodes the bank's record of its key. */
    ghost predicate Agrees(key: Key, expert: E)
    {
      byteRange(key).Some? && expert == Direct(key)
    }

    ghost predicate CacheAgrees()
      reads ramCache
    {
      ramCache.Fits() && forall k :: k in ramCache.values ==> Agrees(k, ramCache.values[k])
    }

    ghost predicate Valid()
      reads this, ramCache
    {
      && ramCache.Valid() && CacheAgrees() && ramCache.protectedCapacity >= 0
      && (forall k :: k in hotTier ==> Agrees(k, hotTier[k]))
      && |hotTier| <= Positive(tier.capacity)
      && (!tier.onCuda ==> hotTier == map[])
    }

    constructor (bank: seq<Byte>, byteRange: Key -> Option<(nat, nat)>, decode: seq<Byte> -> E,
                 tier: HotTier, ramSlots: int)
      requires ramSlots > 0
      ensures Valid() && fresh(ramCache) && this.bank == bank && this.byteRange == byteRange && this.decode == decode
      ensures this.tier == tier && ramCache.State() == Segments([], []) && ramCache.hits == ramCache.misses == 0
      ensures hotTier == map[] && frequency == map[]
      ensures ramCache.capacitySlots == ramSlots && ramCache.probationaryCapacity == ProbationarySlots(ramSlots, 0.2)
    {
      this.bank, this.byteRange, this.decode := bank, byteRange, decode;
      this.tier := tier;
      FifthOf(ramSlots);
      ramCache := new BoundedSLRUCache(ramSlots, 0.2);
      hotTier, frequency := map[], map[];
    }

    /** One contiguous read; an empty bank is never opened. */
    method ReadExpertRecord(key: Key) returns (record: Option<seq<Byte>>)
      ensures record == if bank == [] || byteRange(key) == None then None
                        else Some(Cut(bank, byteRange(key).value.0, byteRange(key).value.1))
    {
      if bank == [] || byteRange(key) == None {
        return None;
      }
      return Some(Cut(bank, byteRange(key).value.0, byteRange(key).value.1));
    }

    lemma Shares()
      requires Valid()
      ensures ramCache.capacitySlots >= 1 && ramCache.protectedCapacity >= 0
      ensures ramCache.probationaryCapacity + ramCache.protectedCapacity == ramCache.capacitySlots
    {
    }

    predicate CanRead(key: Key)
    {
      bank != [] && byteRange(key).Some?
    }

    /** The RAM tier: a hit, or a read, a decode and an insertion. */
    method FetchThroughRam(key: Key) returns (fetched: Fetch<E>)
      requires ramCache.Valid() && CacheAgrees() && ramCache.protectedCapacity >= 0
      modifies ramCache
      ensures ramCache.Valid() && CacheAgrees()
      ensures fetched.Expert? ==> Agrees(key, fetched.value)
      ensures fetched.Unreadable? <==> key !in old(ramCache.values) && !CanRead(key)
      ensures fetched.CacheError? <==> ramCache.protectedCapacity == 0 && key in old(ramCache.probationary)
      ensures fetched.Expert? ==>
        ramCache.State()
          == RamStep(ramCache.probationaryCapacity, ramCache.protectedCapacity, old(ramCache.State()), key)
      ensures ramCache.misses == old(ramCache.misses) + (if key in old(ramCache.State()).Keys() then 0 else 1)
      ensures ramCache.hits + ramCache.misses == old(ramCache.hits + ramCache.misses) + 1
    {
      hide SlruStep, AfterArrival;
      var found := ramCache.Get(key);
      if found.KeyError? {
        return CacheError;
      }
      if found.Hit? {
        return Expert(found.value);
      }
      var record := ReadExpertRecord(key);
      if record == None {
        return Unreadable;
      }
      var decoded := decode(record.value);
      var inserted := ramCache.Put(key, decoded);
      return Expert(decoded);
    }

    /** Fetch an expert. Wherever it comes from it is the decoded bank record. A pinned expert stays
        pinned and is served without touching the RAM tier; a new one is pinned exactly when it is
        used often enough and there is room. */
    method FetchExpert(key: Key) returns (fetched: Fetch<E>)
      requires Valid()
      modifies this`hotTier, this`frequency, ramCache
      ensures Valid()
      ensures fetched.Expert? ==> Agrees(key, fetched.value)
      ensures fetched.Unreadable? <==> key !in old(hotTier) && key !in old(ramCache.values) && !CanRead(key)
      ensures fetched.CacheError? <==>
        key !in old(hotTier) && ramCache.protectedCapacity == 0 && key in old(ramCache.probationary)
      ensures frequency == old(frequency)[key := Freq(old(frequency), key) + 1]
      ensures forall k :: k in old(hotTier) ==> k in hotTier && hotTier[k] == old(hotTier)[k]
      ensures hotTier.Keys == old(hotTier).Keys +
        if fetched.Expert? && tier.onCuda && frequency[key] >= tier.threshold && |old(hotTier)| < tier.capacity
        then {key} else {}
      ensures key in old(hotTier) ==>
        ramCache.State() == old(ramCache.State()) && ramCache.misses == old(ramCache.misses)
      ensures key !in old(hotTier) ==>
        ramCache.misses == old(ramCache.misses) + (if key in old(ramCache.State()).Keys() then 0 else 1)
      ensures key !in old(hotTier) && fetched.Expert? ==>
        ramCache.State()
          == RamStep(ramCache.probationaryCapacity, ramCache.protectedCapacity, old(ramCache.State()), key)
    {
      var count := Freq(frequency, key) + 1;
      frequency := frequency[key := count];
      if key in hotTier {
        return Expert(hotTier[key]);
      }
      fetched := FetchThroughRam(key);
      if fetched.Expert? && tier.Pins(count, |hotTier|) {
        hotTier := hotTier[key := fetched.value];
      }
    }
  }

  // ---------------------------------------------------------------- whole traces

  /** How often `key` is used among the first `n` accesses. */
  function Uses(trace: seq<Key>, n: nat, key: Key): nat
    requires n <= |trace|
  {
    if n == 0 then 0 else Uses(trace, n - 1, key) + if trace[n - 1] == key then 1 else 0
  }

  /** What is pinned after `n` readable accesses. */
  function PinnedAt(tier: HotTier, trace: seq<Key>, n: nat): set<Key>
    requires n <= |trace|
  {
    if n == 0 then {}
    else
      var before := PinnedAt(tier, trace, n - 1);
      before + if tier.Pins(Uses(trace, n, trace[n - 1]), |before|) then {trace[n - 1]} else {}
  }

  /** Access `i` finds `key` used at least as often as the threshold says, with room left in the tier. */
  ghost predicate Earns(tier: HotTier, trace: seq<Key>, i: nat, key: Key)
    requires i < |trace|
  {
    && tier.onCuda && trace[i] == key && Uses(trace, i + 1, key) >= tier.threshold
    && |PinnedAt(tier, trace, i)| < tier.capacity
  }

  lemma PinnedNext(tier: HotTier, trace: seq<Key>, n: nat, key: Key)
    requires n < |trace|
    ensures key in PinnedAt(tier, trace, n + 1) <==> key in PinnedAt(tier, trace, n) || Earns(tier, trace, n, key)
  {
  }

  lemma {:induction false} EarnedIsPinned(tier: HotTier, trace: seq<Key>, i: nat, n: nat, key: Key)
    requires i < n <= |trace| && Earns(tier, trace, i, key)
    ensures key in PinnedAt(tier, trace, n)
    decreases n
  {
    hide *;
    PinnedNext(tier, trace, n - 1, key);
    if i < n - 1 {
      EarnedIsPinned(tier, trace, i, n - 1, key);
    }
  }

  lemma NothingPinnedYet(tier: HotTier, trace: seq<Key>)
    ensures PinnedAt(tier, trace, 0) == {}
  {
  }

  lemma {:induction false} PinnedWasEarned(tier: HotTier, trace: seq<Key>, n: nat, key: Key) returns (i: nat)
    requires n <= |trace| && key in PinnedAt(tier, trace, n)
    ensures i < n && Earns(tier, trace, i, key)
  {
    hide *;
    NothingPinnedYet(tier, trace);
    PinnedNext(tier, trace, n - 1, key);
    if Earns(tier, trace, n - 1, key) {
      i := n - 1;
    } else {
      i := PinnedWasEarned(tier, trace, n - 1, key);
    }
  }

  /** An expert is pinned exactly if some access so far earned it that. */
  lemma PinnedIff(tier: HotTier, trace: seq<Key>, n: nat, key: Key)
    requires n <= |trace|
    ensures key in PinnedAt(tier, trace, n) <==> exists i: nat :: i < n && Earns(tier, trace, i, key)
  {
    hide *;
    if key in PinnedAt(tier, trace, n) {
      var i := PinnedWasEarned(tier, trace, n, key);
    } else if i: nat :| i < n && Earns(tier, trace, i, key) {
      EarnedIsPinned(tier, trace, i, n, key);
    }
  }

  /** The accesses that reach the RAM tier: those whose expert is not pinned yet. */
  function Unpinned(tier: HotTier, trace: seq<Key>, n: nat): (keys: seq<Key>)
    requires n <= |trace|
    ensures |keys| <= n
  {
    if n == 0 then []
    else Unpinned(tier, trace, n - 1) + if trace[n - 1] in PinnedAt(tier, trace, n - 1) then [] else [trace[n - 1]]
  }

  /** On the CPU nothing is ever pinned. */
  lemma {:induction false} NothingPinned(tier: HotTier, trace: seq<Key>, n: nat)
    requires n <= |trace| && !tier.onCuda
    ensures PinnedAt(tier, trace, n) == {} && Unpinned(tier, trace, n) == trace[..n]
  {
    if n > 0 {
      NothingPinned(tier, trace, n - 1);
    }
  }

  lemma {:induction false} UnpinnedGrows(tier: HotTier, trace: seq<Key>, m: nat, n: nat)
    requires m <= n <= |trace|
    ensures Unpinned(tier, trace, m) <= Unpinned(tier, trace, n)
  {
    if m < n {
      UnpinnedGrows(tier, trace, m, n - 1);
    }
  }

  ghost predicate NoRepeats(keys: seq<Key>) {
    forall i :: 0 < i < |keys| ==> keys[i - 1] != keys[i]
  }

  /** The RAM tier after `m` of its accesses: an SLRU with the runtime's shares, or, in a cache of one
      slot, the latest key alone. */
  ghost predicate RamReached(capacitySlots: nat, s: Segments, misses: nat, keys: seq<Key>, m: nat)
    requires capacitySlots >= 1 && m <= |keys|
  {
    if capacitySlots >= 2 then
      FifthOf(capacitySlots);
      var cap := ProbationarySlots(capacitySlots, 0.2);
      && s == SplitAt(cap, capacitySlots - cap, keys, m)
      && misses == MissesUpTo(keys, SplitContents(cap, capacitySlots - cap, keys), m)
    else
      s == Segments(if m == 0 then [] else [keys[m - 1]], []) && NoRepeats(keys[..m]) && misses == m
  }

  lemma RamStart(capacitySlots: nat, keys: seq<Key>)
    requires capacitySlots >= 1
    ensures RamReached(capacitySlots, Segments([], []), 0, keys, 0)
  {
    if capacitySlots >= 2 {
      FifthOf(capacitySlots);
      NothingSplit(ProbationarySlots(capacitySlots, 0.2), capacitySlots - ProbationarySlots(capacitySlots, 0.2), keys);
    }
  }

  lemma SlruAdvances(capacitySlots: nat, s: Segments, misses: nat, keys: seq<Key>, m: nat)
    requires capacitySlots >= 2 && m < |keys| && RamReached(capacitySlots, s, misses, keys, m)
    ensures
      var cap := ProbationarySlots(capacitySlots, 0.2);
      RamReached(capacitySlots, RamStep(cap, capacitySlots - cap, s, keys[m]),
                 misses + if keys[m] in s.Keys() then 0 else 1, keys, m + 1)
  {
    FifthOf(capacitySlots);
    var cap := ProbationarySlots(capacitySlots, 0.2);
    hide SlruStep, SplitAt, SplitContents, MissesUpTo;
    SplitAccess(cap, capacitySlots - cap, keys, m);
  }

  lemma OneSlotAdvances(s: Segments, misses: nat, keys: seq<Key>, m: nat)
    requires m < |keys| && RamReached(1, s, misses, keys, m)
    ensures keys[m] in s.probationary ==> !NoRepeats(keys)
    ensures keys[m] !in s.probationary ==>
      RamReached(1, RamStep(1, 0, s, keys[m]), misses + if keys[m] in s.Keys() then 0 else 1, keys, m + 1)
  {
    if m == 0 || keys[m] != keys[m - 1] {
      assert forall i :: 0 < i < m ==> keys[..m][i - 1] != keys[..m][i];
    }
  }

  /** The next access of the RAM tier, unless it raises. */
  lemma RamAdvances(capacitySlots: nat, s: Segments, misses: nat, keys: seq<Key>, m: nat)
    requires capacitySlots >= 1 && m < |keys| && RamReached(capacitySlots, s, misses, keys, m)
    ensures
      var cap := ProbationarySlots(capacitySlots, 0.2);
      if capacitySlots - cap == 0 && keys[m] in s.probationary then capacitySlots == 1 && !NoRepeats(keys)
      else RamReached(capacitySlots, RamStep(cap, capacitySlots - cap, s, keys[m]),
                      misses + if keys[m] in s.Keys() then 0 else 1, keys, m + 1)
  {
    FifthOf(capacitySlots);
    hide RamReached, RamStep;
    if capacitySlots >= 2 {
      SlruAdvances(capacitySlots, s, misses, keys, m);
    } else {
      OneSlotAdvances(s, misses, keys, m);
    }
  }

  /** Pinned experts and use counts after `n` accesses. */
  ghost predicate TierReached(tier: HotTier, pinned: set<Key>, frequency: map<Key, nat>, trace: seq<Key>, n: nat)
    requires n <= |trace|
  {
    pinned == PinnedAt(tier, trace, n) && forall k :: Freq(frequency, k) == Uses(trace, n, k)
  }

  lemma TierAdvances(tier: HotTier, pinned: set<Key>, frequency: map<Key, nat>, trace: seq<Key>, n: nat)
    requires n < |trace| && TierReached(tier, pinned, frequency, trace, n)
    ensures
      var count := Freq(frequency, trace[n]) + 1;
      TierReached(tier, pinned + if tier.Pins(count, |pinned|) then {trace[n]} else {}, frequency[trace[n] := count],
                  trace, n + 1)
  {
    var count := Freq(frequency, trace[n]) + 1;
    var counted := frequency[trace[n] := count];
    forall k ensures Freq(counted, k) == Uses(trace, n + 1, k) {
      assert Freq(frequency, k) == Uses(trace, n, k);
    }
    assert count == Uses(trace, n + 1, trace[n]);
  }

  /** Whether access `n` reaches the RAM tier. */
  lemma NextUnpinned(tier: HotTier, pinned: set<Key>, frequency: map<Key, nat>, trace: seq<Key>, n: nat, keys: seq<Key>)
    requires n < |trace| && TierReached(tier, pinned, frequency, trace, n)
    requires Unpinned(tier, trace, n) <= Unpinned(tier, trace, n + 1) <= keys
    ensures
      var m := |Unpinned(tier, trace, n)|;
      if trace[n] in pinned then |Unpinned(tier, trace, n + 1)| == m
      else |Unpinned(tier, trace, n + 1)| == m + 1 <= |keys| && keys[m] == trace[n]
  {
    if trace[n] !in pinned {
      assert Unpinned(tier, trace, n + 1)[|Unpinned(tier, trace, n)|] == trace[n];
    }
  }

  ghost predicate Started<E>(manager: ExpertManager<E>)
    reads manager, manager.ramCache
  {
    && manager.Valid() && manager.hotTier == map[] && manager.frequency == map[]
    && manager.ramCache.State() == Segments([], []) && manager.ramCache.misses == 0
    && manager.ramCache.probationaryCapacity == ProbationarySlots(manager.ramCache.capacitySlots, 0.2)
  }

  /** All tiers after `n` accesses of `trace`. */
  ghost predicate Reached<E>(manager: ExpertManager<E>, trace: seq<Key>, n: nat, keys: seq<Key>)
    requires n <= |trace| && Unpinned(manager.tier, trace, n) <= keys
    reads manager, manager.ramCache
  {
    && manager.Valid() && manager.ramCache.capacitySlots >= 1
    && manager.ramCache.probationaryCapacity == ProbationarySlots(manager.ramCache.capacitySlots, 0.2)
    && TierReached(manager.tier, manager.hotTier.Keys, manager.frequency, trace, n)
    && RamReached(manager.ramCache.capacitySlots, manager.ramCache.State(), manager.ramCache.misses,
                  keys, |Unpinned(manager.tier, trace, n)|)
  }

  /** Fetching the next expert of a trace takes every tier one access further, or raises. */
  method FetchNext<E>(manager: ExpertManager<E>, trace: seq<Key>, n: nat, ghost keys: seq<Key>)
    returns (fetched: Fetch<E>)
    requires n < |trace| && manager.CanRead(trace[n])
    requires Unpinned(manager.tier, trace, n) <= Unpinned(manager.tier, trace, n + 1) <= keys
    requires Reached(manager, trace, n, keys)
    modifies manager`hotTier, manager`frequency, manager.ramCache
    ensures manager.Valid() && !fetched.Unreadable?
    ensures fetched.Expert? ==> manager.Agrees(trace[n], fetched.value) && Reached(manager, trace, n + 1, keys)
    ensures fetched.CacheError? ==> manager.ramCache.capacitySlots == 1 && !NoRepeats(keys)
  {
    hide RamStep, ExpertManager.Valid, RamReached, TierReached, NoRepeats, Uses, Freq, ProbationarySlots, Unpinned,
         PinnedAt, Segments.Keys;
    var cache := manager.ramCache;
    manager.Shares();
    ghost var m := |Unpinned(manager.tier, trace, n)|;
    TierAdvances(manager.tier, manager.hotTier.Keys, manager.frequency, trace, n);
    NextUnpinned(manager.tier, manager.hotTier.Keys, manager.frequency, trace, n, keys);
    if trace[n] !in manager.hotTier {
      RamAdvances(cache.capacitySlots, cache.State(), cache.misses, keys, m);
    }
    fetched := manager.FetchExpert(trace[n]);
  }

  /** Replaying a trace of readable experts through a new manager: every fetch is the decoded record,
      and the RAM cache misses exactly as often as the simulator predicts for the accesses that reach
      it, with the runtime's split; on the CPU that is all of them. It stops early exactly when a cache
      of one slot is asked twice running for the same expert. */
  method FetchTrace<E>(manager: ExpertManager<E>, trace: seq<Key>) returns (experts: seq<E>)
    requires Started(manager) && forall i :: 0 <= i < |trace| ==> manager.CanRead(trace[i])
    modifies manager`hotTier, manager`frequency, manager.ramCache
    ensures manager.Valid() && |experts| <= |trace|
    ensures forall i :: 0 <= i < |experts| ==> manager.Agrees(trace[i], experts[i])
    ensures |experts| == |trace| <==>
      manager.ramCache.capacitySlots >= 2 || NoRepeats(Unpinned(manager.tier, trace, |trace|))
    ensures manager.ramCache.capacitySlots >= 2 ==>
      manager.ramCache.misses
        == RuntimeSlruMisses(manager.ramCache.capacitySlots, Unpinned(manager.tier, trace, |trace|))
    ensures |experts| == |trace| ==> manager.hotTier.Keys == PinnedAt(manager.tier, trace, |trace|)
    ensures !manager.tier.onCuda ==> Unpinned(manager.tier, trace, |trace|) == trace
  {
    hide ExpertManager.Valid, RamReached, TierReached, PinnedAt, NoRepeats, RuntimeSlruMisses, ExpertManager.Agrees,
         ExpertManager.CanRead, ProbationarySlots, Unpinned;
    ghost var keys := Unpinned(manager.tier, trace, |trace|);
    experts := [];
    if !manager.tier.onCuda {
      NothingPinned(manager.tier, trace, |trace|);
    }
    manager.Shares();
    assert manager.hotTier.Keys == {};
    TierStarts(manager.tier, trace);
    RamStart(manager.ramCache.capacitySlots, keys);
    for n := 0 to |trace|
      invariant |experts| == n && forall i :: 0 <= i < n ==> manager.Agrees(trace[i], experts[i])
      invariant Unpinned(manager.tier, trace, n) <= keys && Reached(manager, trace, n, keys)
    {
      UnpinnedGrows(manager.tier, trace, n, n + 1);
      UnpinnedGrows(manager.tier, trace, n + 1, |trace|);
      var fetched := FetchNext(manager, trace, n, keys);
      if !fetched.Expert? {
        return;
      }
      experts := experts + [fetched.value];
    }
    TierEnds(manager.tier, manager.hotTier.Keys, manager.frequency, trace);
    RamEnds(manager.ramCache.capacitySlots, manager.ramCache.State(), manager.ramCache.misses, keys);
  }

  lemma TierStarts(tier: HotTier, trace: seq<Key>)
    ensures Unpinned(tier, trace, 0) == [] && TierReached(tier, {}, map[], trace, 0)
  {
  }

  lemma TierEnds(tier: HotTier, pinned: set<Key>, frequency: map<Key, nat>, trace: seq<Key>)
    requires TierReached(tier, pinned, frequency, trace, |trace|)
    ensures pinned == PinnedAt(tier, trace, |trace|)
  {
  }

  lemma RamEnds(capacitySlots: nat, s: Segments, misses: nat, keys: seq<Key>)
    requires capacitySlots >= 1 && RamReached(capacitySlots, s, misses, keys, |keys|)
    ensures capacitySlots >= 2 ==> misses == RuntimeSlruMisses(capacitySlots, keys)
    ensures capacitySlots == 1 ==> NoRepeats(keys)
  {
    assert keys[..|keys|] == keys;
  }
}
