/** What segmented LRU keeps: a least-recently-used cache of the accesses that hit, behind a queue of
    what has arrived. */
module SlruTheory {
  import opened Collections
  import opened ReplacementTheory
  import opened SimCache
  import opened LruTheory

  ghost function SplitContents(probationaryCap: nat, protectedCap: nat, trace: seq<Key>): (contents: seq<set<Key>>)
    requires probationaryCap >= 1 && protectedCap >= 1
    ensures |contents| == |trace| + 1
  {
    Contents(SlruPolicy(probationaryCap, protectedCap), SlruHolds, Segments([], []), trace)
  }

  /** Misses of a segmented LRU with given shares. */
  ghost function SplitMisses(probationaryCap: nat, protectedCap: nat, trace: seq<Key>): nat
    requires probationaryCap >= 1 && protectedCap >= 1
  {
    Misses(trace, SplitContents(probationaryCap, protectedCap, trace))
  }

  ghost function SplitAt(probationaryCap: nat, protectedCap: nat, trace: seq<Key>, n: nat): Segments
    requires probationaryCap >= 1 && protectedCap >= 1 && n <= |trace|
  {
    StateAt(SlruPolicy(probationaryCap, protectedCap), Segments([], []), trace, n)
  }

  lemma SplitAccess(probationaryCap: nat, protectedCap: nat, trace: seq<Key>, n: nat)
    requires probationaryCap >= 1 && protectedCap >= 1 && n < |trace|
    ensures
      var s := SplitAt(probationaryCap, protectedCap, trace, n);
      var contents := SplitContents(probationaryCap, protectedCap, trace);
      && SplitAt(probationaryCap, protectedCap, trace, n + 1) == SlruStep(probationaryCap, protectedCap, s, trace[n])
      && MissesUpTo(trace, contents, n + 1) == MissesUpTo(trace, contents, n) + if trace[n] in s.Keys() then 0 else 1
  {
    ReplayStep(SlruPolicy(probationaryCap, protectedCap), SlruHolds, Segments([], []), trace, n);
  }

  lemma NothingSplit(probationaryCap: nat, protectedCap: nat, trace: seq<Key>)
    requires probationaryCap >= 1 && protectedCap >= 1
    ensures SplitAt(probationaryCap, protectedCap, trace, 0) == Segments([], [])
  {
  }

  lemma {:induction false} SplitFits(probationaryCap: nat, protectedCap: nat, trace: seq<Key>, n: nat)
    requires probationaryCap >= 1 && protectedCap >= 1 && n <= |trace|
    ensures SplitAt(probationaryCap, protectedCap, trace, n).Fits(probationaryCap, protectedCap)
  {
    hide SlruStep, Segments.Fits;
    if n == 0 {
      EmptyFits(probationaryCap, protectedCap);
    } else {
      SplitFits(probationaryCap, protectedCap, trace, n - 1);
      SlruStepFits(probationaryCap, protectedCap, SplitAt(probationaryCap, protectedCap, trace, n - 1), trace[n - 1]);
    }
  }

  lemma EmptyFits(probationaryCap: nat, protectedCap: nat)
    ensures Segments([], []).Fits(probationaryCap, protectedCap)
  {
  }

  // ---------------------------------------------------------------- the protected tier

  /** The accesses among the first `n` that hit, in order. */
  ghost function HitKeys(probationaryCap: nat, protectedCap: nat, trace: seq<Key>, n: nat): seq<Key>
    requires probationaryCap >= 1 && protectedCap >= 1 && n <= |trace|
  {
    if n == 0 then []
    else HitKeys(probationaryCap, protectedCap, trace, n - 1) +
         if trace[n - 1] in SplitAt(probationaryCap, protectedCap, trace, n - 1).Keys() then [trace[n - 1]] else []
  }

  lemma {:induction false} StateOfPrefix<S>(step: (S, Key) -> S, init: S, trace: seq<Key>, more: seq<Key>, n: nat)
    requires n <= |trace|
    ensures StateAt(step, init, trace + more, n) == StateAt(step, init, trace, n)
  {
    if n > 0 {
      StateOfPrefix(step, init, trace, more, n - 1);
    }
  }

  lemma LruAppends(capacity: nat, trace: seq<Key>, key: Key)
    requires capacity >= 1
    ensures LruAt(capacity, trace + [key], |trace| + 1) == LruStep(capacity, LruAt(capacity, trace, |trace|), key)
  {
    StateOfPrefix(LruPolicy(capacity), [], trace, [key], |trace|);
  }

  /** A hit is an LRU access of the protected tier; a miss leaves it alone. */
  lemma ProtectedStep(probationaryCap: nat, protectedCap: nat, s: Segments, key: Key)
    requires probationaryCap >= 1 && protectedCap >= 1
    ensures SlruStep(probationaryCap, protectedCap, s, key).protected ==
      if key in s.Keys() then LruStep(protectedCap, s.protected, key) else s.protected
  {
  }

  /** The protected tier is the least-recently-used cache of its size over the accesses that hit. */
  lemma {:induction false} ProtectedIsLru(probationaryCap: nat, protectedCap: nat, trace: seq<Key>, n: nat)
    requires probationaryCap >= 1 && protectedCap >= 1 && n <= |trace|
    ensures
      var hits := HitKeys(probationaryCap, protectedCap, trace, n);
      SplitAt(probationaryCap, protectedCap, trace, n).protected == LruAt(protectedCap, hits, |hits|)
  {
    hide SlruStep, LruStep, Segments.Keys;
    if n > 0 {
      var key, hits := trace[n - 1], HitKeys(probationaryCap, protectedCap, trace, n - 1);
      ProtectedIsLru(probationaryCap, protectedCap, trace, n - 1);
      ProtectedStep(probationaryCap, protectedCap, SplitAt(probationaryCap, protectedCap, trace, n - 1), key);
      LruAppends(protectedCap, hits, key);
      assert hits + [] == hits;
    }
  }

  /** Other keys keep their order when one that is not among them is used. */
  lemma ByLastUseOfOthers(trace: seq<Key>, n: nat, order: seq<Key>)
    requires n < |trace| && ByLastUse(trace, n, order) && trace[n] !in order
    ensures ByLastUse(trace, n + 1, order)
  {
    var before, after := LastUseRank(trace, n), LastUseRank(trace, n + 1);
    forall i, j | 0 <= i < j < |order| ensures after(order[i]) < after(order[j]) {
      assert before(order[i]) < before(order[j]);
    }
  }

  lemma LruStepByLastUse(capacity: nat, trace: seq<Key>, n: nat, order: seq<Key>)
    requires capacity >= 1 && n < |trace| && Distinct(order) && ByLastUse(trace, n, order)
    ensures ByLastUse(trace, n + 1, LruStep(capacity, order, trace[n]))
  {
    var key := trace[n];
    WithoutIsDistinct(order, key);
    WithoutIsAscending(LastUseRank(trace, n), order, key);
    var others := if key in order then Without(order, key) else if |order| >= capacity then order[1..] else order;
    ByLastUseAfterAccess(trace, n, others);
  }

  /** It lists its keys by their last use, so what it demotes is the one unused for longest. */
  lemma {:induction false} ProtectedByLastUse(probationaryCap: nat, protectedCap: nat, trace: seq<Key>, n: nat)
    requires probationaryCap >= 1 && protectedCap >= 1 && n <= |trace|
    ensures ByLastUse(trace, n, SplitAt(probationaryCap, protectedCap, trace, n).protected)
  {
    hide SlruStep, LruStep, ByLastUse;
    if n == 0 {
      NothingByLastUse(trace);
    } else {
      var s := SplitAt(probationaryCap, protectedCap, trace, n - 1);
      ProtectedByLastUse(probationaryCap, protectedCap, trace, n - 1);
      SplitFits(probationaryCap, protectedCap, trace, n - 1);
      ProtectedStep(probationaryCap, protectedCap, s, trace[n - 1]);
      if trace[n - 1] in s.Keys() {
        LruStepByLastUse(protectedCap, trace, n - 1, s.protected);
      } else {
        ByLastUseOfOthers(trace, n - 1, s.protected);
      }
    }
  }

  lemma NothingByLastUse(trace: seq<Key>)
    ensures ByLastUse(trace, 0, [])
  {
  }

  // ---------------------------------------------------------------- the probationary tier

  /** Access `i` puts `k` at the end of the probationary queue: a miss its own key, a promotion into a full
      protected tier the key that tier gives up. */
  ghost predicate Arrives(probationaryCap: nat, protectedCap: nat, trace: seq<Key>, i: nat, k: Key)
    requires probationaryCap >= 1 && protectedCap >= 1 && i < |trace|
  {
    var s := SplitAt(probationaryCap, protectedCap, trace, i);
    if trace[i] !in s.Keys() then k == trace[i]
    else trace[i] !in s.protected && |s.protected| == protectedCap && k == s.protected[0]
  }

  /** When `k` last arrived before access `n`, or -1. */
  ghost function LastArrival(probationaryCap: nat, protectedCap: nat, trace: seq<Key>, n: nat, k: Key): (i: int)
    requires probationaryCap >= 1 && protectedCap >= 1 && n <= |trace|
    ensures -1 <= i < n
  {
    if n == 0 then -1
    else if Arrives(probationaryCap, protectedCap, trace, n - 1, k) then n - 1
    else LastArrival(probationaryCap, protectedCap, trace, n - 1, k)
  }

  ghost function ArrivalRank(probationaryCap: nat, protectedCap: nat, trace: seq<Key>, n: nat): Key -> int
    requires probationaryCap >= 1 && protectedCap >= 1 && n <= |trace|
  {
    k => LastArrival(probationaryCap, protectedCap, trace, n, k)
  }

  /** What an access leaves of the queue before anything arrives. */
  ghost predicate Stays(order: seq<Key>, key: Key, stay: seq<Key>) {
    stay == order || stay == Without(order, key) || (order != [] && stay == order[1..])
  }

  /** What stays in the queue stays in order, and what arrives goes to its end. */
  lemma ProbationaryStep(probationaryCap: nat, protectedCap: nat, trace: seq<Key>, n: nat)
    returns (stay: seq<Key>, arrived: Option<Key>)
    requires probationaryCap >= 1 && protectedCap >= 1 && n < |trace|
    ensures
      var s := SplitAt(probationaryCap, protectedCap, trace, n);
      var s' := SplitAt(probationaryCap, protectedCap, trace, n + 1);
      && Stays(s.probationary, trace[n], stay)
      && s'.probationary == stay + if arrived.Some? then [arrived.value] else []
    ensures forall k :: Arrives(probationaryCap, protectedCap, trace, n, k) <==> arrived == Some(k)
    ensures arrived.Some? ==> arrived.value !in stay
  {
    var s := SplitAt(probationaryCap, protectedCap, trace, n);
    SplitFits(probationaryCap, protectedCap, trace, n);
    WithoutIsDistinct(s.probationary, trace[n]);
    if trace[n] in s.protected {
      stay, arrived := s.probationary, None;
    } else if trace[n] in s.probationary {
      stay := Without(s.probationary, trace[n]);
      arrived := if |s.protected| == protectedCap then Some(s.protected[0]) else None;
      if arrived.Some? {
        assert arrived.value in Elements(s.protected) && arrived.value !in Elements(s.probationary);
        WithoutMembers(s.probationary, trace[n], arrived.value);
      }
    } else {
      stay := if |s.probationary| >= probationaryCap then s.probationary[1..] else s.probationary;
      arrived := Some(trace[n]);
    }
  }

  lemma StaysAscending(rank: Key -> int, order: seq<Key>, key: Key, stay: seq<Key>)
    requires Ascending(rank, order) && Stays(order, key, stay)
    ensures Ascending(rank, stay)
  {
    WithoutIsAscending(rank, order, key);
  }

  lemma ArrivalLast(probationaryCap: nat, protectedCap: nat, trace: seq<Key>, n: nat, stay: seq<Key>,
                    arrived: Option<Key>)
    requires probationaryCap >= 1 && protectedCap >= 1 && n < |trace|
    requires Ascending(ArrivalRank(probationaryCap, protectedCap, trace, n), stay)
    requires forall k :: Arrives(probationaryCap, protectedCap, trace, n, k) <==> arrived == Some(k)
    requires arrived.Some? ==> arrived.value !in stay
    ensures Ascending(ArrivalRank(probationaryCap, protectedCap, trace, n + 1),
                      stay + if arrived.Some? then [arrived.value] else [])
  {
    hide Arrives;
    var before := ArrivalRank(probationaryCap, protectedCap, trace, n);
    var after := ArrivalRank(probationaryCap, protectedCap, trace, n + 1);
    forall i | 0 <= i < |stay| ensures after(stay[i]) == before(stay[i]) < n {
      assert !Arrives(probationaryCap, protectedCap, trace, n, stay[i]);
    }
    assert arrived.Some? ==> after(arrived.value) == n;
  }

  /** The probationary tier lists its keys in the order in which they last arrived. */
  lemma {:induction false} ProbationaryByArrival(probationaryCap: nat, protectedCap: nat, trace: seq<Key>, n: nat)
    requires probationaryCap >= 1 && protectedCap >= 1 && n <= |trace|
    ensures Ascending(ArrivalRank(probationaryCap, protectedCap, trace, n),
                      SplitAt(probationaryCap, protectedCap, trace, n).probationary)
  {
    hide SlruStep, Arrives, Ascending, ArrivalRank, Stays;
    if n == 0 {
      NothingArrived(probationaryCap, protectedCap, trace);
    } else {
      ProbationaryByArrival(probationaryCap, protectedCap, trace, n - 1);
      var stay, arrived := ProbationaryStep(probationaryCap, protectedCap, trace, n - 1);
      StaysAscending(ArrivalRank(probationaryCap, protectedCap, trace, n - 1),
                     SplitAt(probationaryCap, protectedCap, trace, n - 1).probationary, trace[n - 1], stay);
      ArrivalLast(probationaryCap, protectedCap, trace, n - 1, stay, arrived);
    }
  }

  lemma NothingArrived(probationaryCap: nat, protectedCap: nat, trace: seq<Key>)
    requires probationaryCap >= 1 && protectedCap >= 1
    ensures SplitAt(probationaryCap, protectedCap, trace, 0).probationary == []
    ensures Ascending(ArrivalRank(probationaryCap, protectedCap, trace, 0), [])
  {
  }

  /** Only a miss on a full probationary tier lets a key go, and then the one that arrived first. */
  lemma OldestArrivalLeaves(probationaryCap: nat, protectedCap: nat, trace: seq<Key>, n: nat, k: Key)
    requires probationaryCap >= 1 && protectedCap >= 1 && n < |trace|
    ensures
      var s := SplitAt(probationaryCap, protectedCap, trace, n);
      var s' := SplitAt(probationaryCap, protectedCap, trace, n + 1);
      k in s.Keys() && k !in s'.Keys() <==>
        trace[n] !in s.Keys() && |s.probationary| == probationaryCap && k == s.probationary[0]
  {
    var s := SplitAt(probationaryCap, protectedCap, trace, n);
    SplitFits(probationaryCap, protectedCap, trace, n);
    SlruStepFits(probationaryCap, protectedCap, s, trace[n]);
    if trace[n] !in s.Keys() && |s.probationary| == probationaryCap {
      PopFrontKeeps(s.probationary);
      assert s.probationary[0] in Elements(s.probationary);
    }
  }
}
