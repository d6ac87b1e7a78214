/** The runtime's bounded segmented-LRU cache. */
module ExpertCache {
  import opened Collections
  import opened ReplacementTheory
  import opened SimCache
  import opened SlruTheory

  datatype Lookup<+V> = Hit(value: V) | Miss | KeyError

  datatype Insertion<+V> = Refreshed | Inserted(evicted: Option<(Key, V)>) | Failed | BoundViolated

  /** `max(1, int(capacity_slots * probationary_ratio))`. */
  function ProbationarySlots(capacitySlots: int, ratio: real): int {
    if (capacitySlots as real * ratio).Floor < 1 then 1 else (capacitySlots as real * ratio).Floor
  }

  function Positive(n: int): nat {
    if n < 0 then 0 else n
  }

  /** What promoting a probationary key leaves, with and without a protected tier. */
  lemma PromotionFits(probationaryCap: int, protectedCap: int, s: Segments, key: Key)
    requires probationaryCap >= 1 && s.Fits(probationaryCap, Positive(protectedCap)) && key in s.probationary
    ensures key !in s.protected && key in s.Keys()
    ensures protectedCap >= 1 ==>
      && SlruStep(probationaryCap, protectedCap, s, key).Fits(probationaryCap, protectedCap)
      && SlruStep(probationaryCap, protectedCap, s, key).Keys() == s.Keys()
      && SlruStep(probationaryCap, protectedCap, s, key).protected
        == (if |s.protected| >= protectedCap then s.protected[1..] else s.protected) + [key]
      && SlruStep(probationaryCap, protectedCap, s, key).probationary
        == Without(s.probationary, key) + if |s.protected| >= protectedCap then [s.protected[0]] else []
    ensures protectedCap <= 0 ==>
      && s.protected == []
      && Segments(Without(s.probationary, key), []).Fits(probationaryCap, 0)
      && Segments(Without(s.probationary, key), []).Keys() == s.Keys() - {key}
  {
    WithoutIsDistinct(s.probationary, key);
    assert key in Elements(s.probationary);
    if protectedCap >= 1 {
      SlruStepFits(probationaryCap, protectedCap, s, key);
    }
  }

  class BoundedSLRUCache<V> {
    const capacitySlots: int
    const probationaryCapacity: int
    const protectedCapacity: int
    /** The two ordered dictionaries: their keys, oldest first, and the values of both. An entry
        moves between tiers with its value. */
    var probationary: seq<Key>
    var protected: seq<Key>
    var values: map<Key, V>
    var hits: nat
    var misses: nat
    var evictions: nat
    var promotions: nat
    var demotions: nat
    /** Keys inserted so far, counting a re-insertion after an eviction again. */
    ghost var insertions: nat
    /** Entries lost to failed promotions. */
    ghost var lost: nat

    function State(): Segments
      reads this`probationary, this`protected
    {
      Segments(probationary, protected)
    }

    /** The partitions are disjoint and within their caps. */
    ghost predicate Fits()
      reads this`probationary, this`protected, this`values
    {
      && capacitySlots > 0 && probationaryCapacity >= 1 && probationaryCapacity + protectedCapacity == capacitySlots
      && State().Fits(probationaryCapacity, Positive(protectedCapacity))
      && values.Keys == State().Keys()
    }

    /** Every insertion is still held, was evicted or was lost; promotions and demotions account for
        the protected tier. */
    ghost predicate Valid()
      reads this
    {
      && Fits()
      && insertions == |probationary| + |protected| + evictions + lost
      && promotions == demotions + |protected| + lost
    }

    constructor (capacitySlots: int, ratio: real)
      requires capacitySlots > 0
      ensures Valid() && values == map[] && State() == Segments([], []) && this.capacitySlots == capacitySlots
      ensures probationaryCapacity == ProbationarySlots(capacitySlots, ratio)
      ensures hits == misses == evictions == promotions == demotions == 0
    {
      this.capacitySlots := capacitySlots;
      probationaryCapacity := ProbationarySlots(capacitySlots, ratio);
      protectedCapacity := capacitySlots - ProbationarySlots(capacitySlots, ratio);
      probationary, protected, values := [], [], map[];
      hits, misses, evictions, promotions, demotions, insertions, lost := 0, 0, 0, 0, 0, 0, 0;
    }

    /** Look a key up. It fails exactly when there is no protected tier to promote into, and then
        the entry is lost. */
    method Get(key: Key) returns (found: Lookup<V>)
      requires Valid()
      modifies this`probationary, this`protected, this`values, this`hits, this`misses, this`promotions, this`demotions,
        this`lost
      ensures found.KeyError? <==> protectedCapacity <= 0 && key in old(probationary)
      ensures found.Miss? <==> key !in old(values)
      ensures found.Hit? ==> found.value == old(values)[key]
      ensures Valid() && values == if found.KeyError? then old(values) - {key} else old(values)
      ensures lost == old(lost) + (if found.KeyError? then 1 else 0)
      ensures found.Hit? ==> key in protected && hits == old(hits) + 1 && misses == old(misses)
      ensures found.KeyError? ==> hits == old(hits) + 1 && misses == old(misses)
      ensures found.Miss? ==> State() == old(State()) && hits == old(hits) && misses == old(misses) + 1
      ensures found.Hit? && protectedCapacity >= 1 ==>
        State() == SlruStep(probationaryCapacity, protectedCapacity, old(State()), key)
    {
      if key in protected {
        MoveToEndKeeps(protected, key);
        MoveToEndLength(protected, key);
        protected := MoveToEnd(protected, key);
        hits := hits + 1;
        return Hit(values[key]);
      }
      if key in probationary {
        found := Promote(key);
        return;
      }
      misses := misses + 1;
      return Miss;
    }

    /** Move a probationary entry to the protected tier, demoting that tier's oldest if it is full. */
    method Promote(key: Key) returns (found: Lookup<V>)
      requires Valid() && key in probationary
      modifies this`probationary, this`protected, this`values, this`hits, this`promotions, this`demotions, this`lost
      ensures hits == old(hits) + 1
      ensures found == if protectedCapacity <= 0 then KeyError else Hit(old(values)[key])
      ensures Valid() && values == if found.KeyError? then old(values) - {key} else old(values)
      ensures lost == old(lost) + (if found.KeyError? then 1 else 0)
      ensures found.Hit? ==> key in protected
      ensures found.Hit? ==> State() == SlruStep(probationaryCapacity, protectedCapacity, old(State()), key)
    {
      assert key in State().Keys();
      var value := values[key];
      hits, promotions := hits + 1, promotions + 1;
      if |protected| >= protectedCapacity && protected == [] {
        LoseEntry(key);
        return KeyError;
      }
      MoveUp(key);
      return Hit(value);
    }

    /** The pop has happened when the promotion fails. */
    method LoseEntry(key: Key)
      requires Fits() && protectedCapacity <= 0 && key in probationary
      modifies this`probationary, this`values, this`lost
      ensures Fits() && values == old(values) - {key}
      ensures |probationary| == |old(probationary)| - 1 && lost == old(lost) + 1
    {
      PromotionFits(probationaryCapacity, protectedCapacity, State(), key);
      probationary, values, lost := Without(probationary, key), values - {key}, lost + 1;
    }

    /** Move an entry up, demoting the protected tier's oldest if it is full. */
    method MoveUp(key: Key)
      requires Fits() && protectedCapacity >= 1 && key in probationary
      modifies this`probationary, this`protected, this`demotions
      ensures Fits() && State() == SlruStep(probationaryCapacity, protectedCapacity, old(State()), key)
      ensures |probationary| + |protected| == |old(probationary)| + |old(protected)|
      ensures key in protected && demotions + |protected| == old(demotions) + |old(protected)| + 1
    {
      PromotionFits(probationaryCapacity, protectedCapacity, State(), key);
      probationary := Without(probationary, key);
      if |protected| >= protectedCapacity {
        probationary, protected := probationary + [protected[0]], protected[1..];
        demotions := demotions + 1;
      }
      protected := protected + [key];
    }

    /** Put a value under a key. A new key never touches the protected tier, and evicts at most
        the oldest probationary entry; the residency assertion fails once a probationary tier larger
        than the whole cache has filled it. */
    method Put(key: Key, value: V) returns (result: Insertion<V>)
      requires Valid()
      modifies this
      ensures result.Failed? <==> protectedCapacity <= 0 && key in old(probationary)
      ensures result.Refreshed? <==> key in old(values) && !result.Failed?
      ensures result.Refreshed? ==> Valid() && values == old(values)[key := value]
      ensures result.Failed? ==> Valid() && values == old(values) - {key}
      ensures result.BoundViolated? <==>
        key !in old(values) && protectedCapacity < 0 && |old(probationary)| >= capacitySlots
      ensures result.Inserted? || result.BoundViolated? ==>
        && Valid() && protected == old(protected)
        && probationary == AfterArrival(probationaryCapacity, old(probationary), key)
        && values == AfterInsert(probationaryCapacity, old(probationary), old(values), key, value)
      ensures result.Inserted? ==>
        result.evicted ==
          if |old(probationary)| < probationaryCapacity then None
          else Some((old(probationary)[0], old(values)[old(probationary)[0]]))
      ensures (result.Inserted? || result.Refreshed?) && protectedCapacity >= 1 ==>
        State() == SlruStep(probationaryCapacity, protectedCapacity, old(State()), key)
      ensures result.Inserted? ==> hits == old(hits) && misses == old(misses) && insertions == old(insertions) + 1
      ensures result.Refreshed? ==> hits == old(hits) + 1 && misses == old(misses) && insertions == old(insertions)
    {
      if key in values {
        var found := Get(key);
        if found.KeyError? {
          return Failed;
        }
        values := values[key := value];
        return Refreshed;
      }
      result := Insert(key, value);
    }

    method Insert(key: Key, value: V) returns (result: Insertion<V>)
      requires Valid() && key !in values
      modifies this`probationary, this`values, this`evictions, this`insertions
      ensures result.Inserted? || result.BoundViolated?
      ensures result.BoundViolated? <==> protectedCapacity < 0 && |old(probationary)| >= capacitySlots
      ensures Valid() && insertions == old(insertions) + 1
      ensures probationary == AfterArrival(probationaryCapacity, old(probationary), key)
      ensures values == AfterInsert(probationaryCapacity, old(probationary), old(values), key, value)
      ensures result.Inserted? ==> result.evicted == Evicted(probationaryCapacity, old(probationary), old(values))
      ensures result.Inserted? && protectedCapacity >= 1 ==>
        State() == SlruStep(probationaryCapacity, protectedCapacity, old(State()), key)
    {
      var evicted := Evicted(probationaryCapacity, probationary, values);
      if |probationary| >= probationaryCapacity {
        EvictOldest();
      }
      Append(key, value);
      if |probationary| + |protected| > capacitySlots {
        return BoundViolated;
      }
      return Inserted(evicted);
    }

    method Append(key: Key, value: V)
      requires Valid() && key !in values && |probationary| < probationaryCapacity
      modifies this`probationary, this`values, this`insertions
      ensures Valid() && insertions == old(insertions) + 1
      ensures probationary == old(probationary) + [key] && values == old(values)[key := value]
    {
      AppendKeeps(probationary, key);
      probationary, values := probationary + [key], values[key := value];
      insertions := insertions + 1;
    }

    method EvictOldest()
      requires Valid() && probationary != []
      modifies this`probationary, this`values, this`evictions
      ensures Valid() && evictions == old(evictions) + 1 && probationary == old(probationary)[1..]
      ensures values == old(values) - {old(probationary)[0]}
    {
      probationary, values := probationary[1..], values - {probationary[0]};
      evictions := evictions + 1;
    }
  }

  /** What inserting a new key drops, if anything. */
  function Evicted<V>(cap: int, probationary: seq<Key>, values: map<Key, V>): Option<(Key, V)> {
    if |probationary| >= cap && probationary != [] && probationary[0] in values
    then Some((probationary[0], values[probationary[0]])) else None
  }

  /** The probationary tier after a new key. */
  function AfterArrival(cap: int, probationary: seq<Key>, key: Key): seq<Key> {
    (if |probationary| >= cap && probationary != [] then probationary[1..] else probationary) + [key]
  }

  function AfterInsert<V>(cap: int, probationary: seq<Key>, values: map<Key, V>, key: Key, value: V): map<Key, V> {
    if |probationary| >= cap && probationary != [] then (values - {probationary[0]})[key := value]
    else values[key := value]
  }

  lemma MoveToEndLength(s: seq<Key>, key: Key)
    ensures key in s ==> |MoveToEnd(s, key)| == |s|
  {
  }

  // ---------------------------------------------------------------- against the simulator

  lemma FifthOf(capacitySlots: int)
    ensures (capacitySlots as real * 0.2).Floor == capacitySlots / 5
  {
    var q := capacitySlots / 5;
    assert q as real <= capacitySlots as real * 0.2 < q as real + 1.0;
  }

  /** The simulator and the runtime split a capacity the same way exactly when a fifth of it is
      whole, or when it is two to four slots. */
  lemma SplitsAgree(capacitySlots: int)
    requires capacitySlots > 0
    ensures
      (ProbationaryCap(capacitySlots) == ProbationarySlots(capacitySlots, 0.2)
       && ProtectedCap(capacitySlots) == capacitySlots - ProbationarySlots(capacitySlots, 0.2))
      <==> capacitySlots % 5 == 0 || 2 <= capacitySlots <= 4
  {
    FifthOf(capacitySlots);
  }

  /** What the runtime cache misses on a trace, with its own shares of the capacity. */
  ghost function RuntimeSlruMisses(capacitySlots: nat, trace: seq<Key>): nat
    requires capacitySlots >= 2
  {
    FifthOf(capacitySlots);
    SplitMisses(ProbationarySlots(capacitySlots, 0.2), capacitySlots - ProbationarySlots(capacitySlots, 0.2), trace)
  }

  /** Which of the first `n` new keys a probationary tier holds. */
  function Arrivals(probationaryCap: nat, n: nat): seq<Key> {
    if n <= probationaryCap then Keys(0, n) else Keys(n - probationaryCap, n)
  }

  lemma NewKeyArrives(probationaryCap: nat, protectedCap: nat, n: nat)
    requires probationaryCap >= 1 && protectedCap >= 1
    ensures (0, n) !in Segments(Arrivals(probationaryCap, n), []).Keys()
    ensures SlruStep(probationaryCap, protectedCap, Segments(Arrivals(probationaryCap, n), []), (0, n))
      == Segments(Arrivals(probationaryCap, n + 1), [])
  {
  }

  ghost predicate AllMissed(probationaryCap: nat, protectedCap: nat, trace: seq<Key>, n: nat)
    requires probationaryCap >= 1 && protectedCap >= 1 && n <= |trace|
  {
    && SplitAt(probationaryCap, protectedCap, trace, n) == Segments(Arrivals(probationaryCap, n), [])
    && MissesUpTo(trace, SplitContents(probationaryCap, protectedCap, trace), n) == n
  }

  lemma NoneMissed(probationaryCap: nat, protectedCap: nat, trace: seq<Key>)
    requires probationaryCap >= 1 && protectedCap >= 1
    ensures AllMissed(probationaryCap, protectedCap, trace, 0)
  {
    hide SplitAt;
    NothingSplit(probationaryCap, protectedCap, trace);
    assert Arrivals(probationaryCap, 0) == [];
  }

  lemma {:induction false} NewKeysMiss(probationaryCap: nat, protectedCap: nat, trace: seq<Key>, n: nat)
    requires probationaryCap >= 1 && protectedCap >= 1 && n <= |trace|
    requires forall i :: 0 <= i < n ==> trace[i] == (0, i)
    ensures AllMissed(probationaryCap, protectedCap, trace, n)
  {
    hide SplitAt, SplitContents, MissesUpTo, SlruStep, Arrivals;
    if n == 0 {
      NoneMissed(probationaryCap, protectedCap, trace);
    } else {
      NewKeysMiss(probationaryCap, protectedCap, trace, n - 1);
      NewKeyArrives(probationaryCap, protectedCap, n - 1);
      SplitAccess(probationaryCap, protectedCap, trace, n - 1);
    }
  }

  /** `slots + 1` new keys, and then the first of them again. */
  function Returning(slots: nat): seq<Key> {
    Keys(0, slots + 1) + [(0, 0)]
  }

  /** Its return hits where all of them fit, and misses with one slot less. */
  lemma ReturningKey(probationaryCap: nat, protectedCap: nat, slots: nat)
    requires probationaryCap >= 1 && protectedCap >= 1 && slots <= probationaryCap <= slots + 1
    ensures SplitMisses(probationaryCap, protectedCap, Returning(slots)) ==
      slots + 1 + if probationaryCap == slots then 1 else 0
  {
    hide SplitAt, SplitContents, MissesUpTo, SlruStep;
    var trace := Returning(slots);
    NewKeysMiss(probationaryCap, protectedCap, trace, slots + 1);
    SplitAccess(probationaryCap, protectedCap, trace, slots + 1);
    assert probationaryCap == slots + 1 ==> Arrivals(probationaryCap, slots + 1)[0] == (0, 0);
  }

  lemma SimulatedIsSplit(capacitySlots: nat, trace: seq<Key>)
    ensures SlruMisses(capacitySlots, trace)
      == SplitMisses(ProbationaryCap(capacitySlots), ProtectedCap(capacitySlots), trace)
  {
  }

  lemma SplitsDiffer(capacitySlots: nat)
    requires capacitySlots > 4 && capacitySlots % 5 != 0
    ensures RuntimeSlruMisses(capacitySlots, Returning(capacitySlots / 5)) ==
      SlruMisses(capacitySlots, Returning(capacitySlots / 5)) + 1
  {
    hide SplitMisses, SlruMisses;
    var slots := capacitySlots / 5;
    FifthOf(capacitySlots);
    SimulatedIsSplit(capacitySlots, Returning(slots));
    ReturningKey(slots, capacitySlots - slots, slots);
    ReturningKey(slots + 1, ProtectedCap(capacitySlots), slots);
    assert ProbationaryCap(capacitySlots) == slots + 1;
  }

  lemma SplitsAlike(capacitySlots: nat, trace: seq<Key>)
    requires capacitySlots >= 2 && (capacitySlots % 5 == 0 || capacitySlots <= 4)
    ensures RuntimeSlruMisses(capacitySlots, trace) == SlruMisses(capacitySlots, trace)
  {
    SplitsAgree(capacitySlots);
  }

  /** From two slots on the simulator predicts the runtime's misses on every trace exactly when a
      fifth of the capacity is whole, or there are at most four slots. */
  lemma MissesAgreeIff(capacitySlots: nat)
    requires capacitySlots >= 2
    ensures (forall trace :: RuntimeSlruMisses(capacitySlots, trace) == SlruMisses(capacitySlots, trace)) <==>
      capacitySlots % 5 == 0 || capacitySlots <= 4
  {
    hide RuntimeSlruMisses, SlruMisses;
    if capacitySlots % 5 == 0 || capacitySlots <= 4 {
      forall trace ensures RuntimeSlruMisses(capacitySlots, trace) == SlruMisses(capacitySlots, trace) {
        SplitsAlike(capacitySlots, trace);
      }
    } else {
      SplitsDiffer(capacitySlots);
    }
  }
}
