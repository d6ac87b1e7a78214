/** Demand paging over a fixed trace: what any replacement policy does, when the next
    use of a key lies, and the exchange argument for evicting the furthest next use. */
module ReplacementTheory {
  import opened Collections

  /** `(layer, expert)`. */
  type Key = (int, int)

  /** Keys `(0, from)` up to but not including `(0, to)`. */
  function Keys(from: nat, to: nat): (keys: seq<Key>)
    requires from <= to
    ensures |keys| == to - from && forall i :: 0 <= i < |keys| ==> keys[i] == (0, from + i)
  {
    seq(to - from, i requires 0 <= i < to - from => (0, from + i))
  }

  lemma KeysAreDistinct(from: nat, to: nat)
    requires from <= to
    ensures |Elements(Keys(from, to))| == to - from
  {
    DistinctSize(Keys(from, to));
  }

  /** The first position at or after `i` that uses `key`, or `|trace|` if there is none. */
  function NextUse(trace: seq<Key>, i: nat, key: Key): (n: nat)
    requires i <= |trace|
    ensures i <= n <= |trace|
    ensures n < |trace| ==> trace[n] == key
    ensures forall j :: i <= j < n ==> trace[j] != key
    decreases |trace| - i
  {
    if i == |trace| || trace[i] == key then i else NextUse(trace, i + 1, key)
  }

  /** One access of any policy: it ends up holding at most `capacity` keys, all of which it
      already held or was just asked for. It may bypass the cache. */
  ghost predicate ScheduleStep(trace: seq<Key>, capacity: nat, i: nat, before: set<Key>, after: set<Key>)
    requires i < |trace|
  {
    after <= before + {trace[i]} && |after| <= capacity
  }

  /** `contents[i]` is what a policy holds just before access `i`. */
  ghost predicate IsSchedule(trace: seq<Key>, capacity: nat, contents: seq<set<Key>>) {
    && |contents| == |trace| + 1
    && contents[0] == {}
    && forall i :: 0 <= i < |trace| ==> ScheduleStep(trace, capacity, i, contents[i], contents[i + 1])
  }

  /** A schedule that always admits the key just accessed. */
  ghost predicate IsAdmitting(trace: seq<Key>, capacity: nat, contents: seq<set<Key>>) {
    && IsSchedule(trace, capacity, contents)
    && forall i :: 0 <= i < |trace| ==> trace[i] in contents[i + 1]
  }

  /** Misses over the first `n` accesses. */
  ghost function MissesUpTo(trace: seq<Key>, contents: seq<set<Key>>, n: nat): nat
    requires n <= |trace| && n <= |contents|
  {
    if n == 0 then 0
    else MissesUpTo(trace, contents, n - 1) + if trace[n - 1] in contents[n - 1] then 0 else 1
  }

  /** Accesses among the first `n` after which the accessed key is not held. */
  ghost function BypassesUpTo(trace: seq<Key>, contents: seq<set<Key>>, n: nat): nat
    requires n <= |trace| < |contents|
  {
    if n == 0 then 0
    else BypassesUpTo(trace, contents, n - 1) + if trace[n - 1] in contents[n] then 0 else 1
  }

  ghost function Misses(trace: seq<Key>, contents: seq<set<Key>>): nat
    requires |trace| < |contents|
  {
    MissesUpTo(trace, contents, |trace|)
  }

  /** No resident is used later than `victim`, looking from position `i` on. */
  ghost predicate IsFurthest(trace: seq<Key>, i: nat, cache: set<Key>, victim: Key)
    requires i <= |trace|
  {
    victim in cache && forall r :: r in cache ==> NextUse(trace, i, r) <= NextUse(trace, i, victim)
  }

  /** One access of the furthest-next-use policy, for any way of breaking ties. */
  ghost predicate BeladyStep(trace: seq<Key>, capacity: nat, i: nat, before: set<Key>, after: set<Key>)
    requires i < |trace|
  {
    if trace[i] in before then after == before
    else if |before| < capacity then after == before + {trace[i]}
    else exists victim :: IsFurthest(trace, i + 1, before, victim) && after == before - {victim} + {trace[i]}
  }

  ghost predicate IsBelady(trace: seq<Key>, capacity: nat, contents: seq<set<Key>>) {
    && |contents| == |trace| + 1
    && contents[0] == {}
    && forall i :: 0 <= i < |trace| ==> BeladyStep(trace, capacity, i, contents[i], contents[i + 1])
  }

  // ---------------------------------------------------------------- optimality

  /** The keys of `cache` that come up again at or before position `t`. */
  ghost function DueBy(trace: seq<Key>, i: nat, cache: set<Key>, t: nat): set<Key>
    requires i <= |trace|
  {
    set k | k in cache && NextUse(trace, i, k) <= t
  }

  lemma BeladyKeepsCapacity(trace: seq<Key>, capacity: nat, contents: seq<set<Key>>, n: nat)
    requires capacity >= 1 && IsBelady(trace, capacity, contents) && n <= |trace|
    ensures |contents[n]| <= capacity
  {
    if n > 0 {
      BeladyKeepsCapacity(trace, capacity, contents, n - 1);
      assert BeladyStep(trace, capacity, n - 1, contents[n - 1], contents[n]);
    }
  }

  lemma BeladyIsAdmitting(trace: seq<Key>, capacity: nat, contents: seq<set<Key>>)
    requires capacity >= 1 && IsBelady(trace, capacity, contents)
    ensures IsAdmitting(trace, capacity, contents)
  {
    forall i | 0 <= i < |trace|
      ensures ScheduleStep(trace, capacity, i, contents[i], contents[i + 1]) && trace[i] in contents[i + 1]
    {
      assert BeladyStep(trace, capacity, i, contents[i], contents[i + 1]);
      BeladyKeepsCapacity(trace, capacity, contents, i + 1);
    }
  }

  /** The lead of `rival` over Belady in keys due by `t`. */
  ghost function Lead(trace: seq<Key>, i: nat, belady: set<Key>, rival: set<Key>, t: nat): int
    requires i <= |trace|
  {
    |DueBy(trace, i, rival, t)| - |DueBy(trace, i, belady, t)|
  }

  /** Before access `i`, the accessed key is due by any later `t` exactly if it is held. */
  lemma DueBefore(trace: seq<Key>, i: nat, before: set<Key>, t: nat)
    requires i < t < |trace|
    ensures |DueBy(trace, i, before, t)| ==
      |DueBy(trace, i, before, t) - {trace[i]}| + if trace[i] in before then 1 else 0
  {
    SizeWithout(DueBy(trace, i, before, t), trace[i]);
  }

  /** After access `i`, the accessed key counts once more if it is held and comes up by `t`. */
  lemma DueAfter(trace: seq<Key>, i: nat, after: set<Key>, t: nat)
    requires i < t < |trace|
    ensures |DueBy(trace, i + 1, after, t)| == |DueBy(trace, i + 1, after, t) - {trace[i]}| +
      if trace[i] in after && NextUse(trace, i + 1, trace[i]) <= t then 1 else 0
  {
    SizeWithout(DueBy(trace, i + 1, after, t), trace[i]);
  }

  /** Apart from the accessed key, an access never makes more of a policy's keys due by `t`. */
  lemma OthersOnlyShrink(trace: seq<Key>, i: nat, before: set<Key>, after: set<Key>, t: nat)
    requires i < t < |trace| && after <= before + {trace[i]}
    ensures |DueBy(trace, i + 1, after, t) - {trace[i]}| <= |DueBy(trace, i, before, t) - {trace[i]}|
    ensures |DueBy(trace, i + 1, after, t) - {trace[i]}| <= |after - {trace[i]}|
  {
    SubsetSize(DueBy(trace, i + 1, after, t) - {trace[i]}, DueBy(trace, i, before, t) - {trace[i]});
    SubsetSize(DueBy(trace, i + 1, after, t) - {trace[i]}, after - {trace[i]});
  }

  /** Caches that agree on the other keys due by `t` before an access have them due after it. */
  lemma OthersStayDue(trace: seq<Key>, i: nat, before: set<Key>, after: set<Key>, t: nat)
    requires i < |trace|
    requires forall k :: k != trace[i] && NextUse(trace, i + 1, k) <= t ==> (k in after <==> k in before)
    ensures DueBy(trace, i + 1, after, t) - {trace[i]} == DueBy(trace, i, before, t) - {trace[i]}
  {
  }

  /** Belady's own keys: either nothing due by `t` is lost, or everything it held was due by
      `t` and its cache was full. */
  lemma BeladyOthers(trace: seq<Key>, capacity: nat, i: nat, before: set<Key>, after: set<Key>, t: nat)
    requires i < t < |trace| && |before| <= capacity && BeladyStep(trace, capacity, i, before, after)
    ensures trace[i] in after
    ensures
      var others := |DueBy(trace, i + 1, after, t) - {trace[i]}|;
      || others == |DueBy(trace, i, before, t) - {trace[i]}|
      || (trace[i] !in before && others == capacity - 1)
  {
    var k := trace[i];
    if k in before || |before| < capacity {
      OthersStayDue(trace, i, before, after, t);
    } else {
      var v :| IsFurthest(trace, i + 1, before, v) && after == before - {v} + {k};
      if NextUse(trace, i + 1, v) <= t {
        assert DueBy(trace, i + 1, after, t) - {k} == before - {v};
      } else {
        OthersStayDue(trace, i, before, after, t);
      }
    }
  }

  /** One access: the rival's lead grows by at most what it pays in extra misses, except
      that wherever Belady's eviction is visible it has no lead beyond the bypass itself. */
  lemma LeadStep(trace: seq<Key>, capacity: nat, i: nat, o: set<Key>, o': set<Key>, p: set<Key>, p': set<Key>, t: nat)
    requires i < t < |trace|
    requires |o| <= capacity && BeladyStep(trace, capacity, i, o, o')
    requires ScheduleStep(trace, capacity, i, p, p')
    ensures
      var paid := (if trace[i] in p then 0 else 1) - (if trace[i] in o then 0 else 1);
      || Lead(trace, i + 1, o', p', t) <= (if trace[i] in p' then 0 else 1)
      || Lead(trace, i + 1, o', p', t) <= Lead(trace, i, o, p, t) + paid
  {
    BeladyOthers(trace, capacity, i, o, o', t);
    OthersOnlyShrink(trace, i, p, p', t);
    SizeWithout(p', trace[i]);
    DueBefore(trace, i, o, t);
    DueBefore(trace, i, p, t);
    DueAfter(trace, i, o', t);
    DueAfter(trace, i, p', t);
  }

  /** The invariant of the whole run: at every horizon `t`, a rival is never further ahead
      than the misses and bypasses it has already paid. */
  lemma {:induction false} BeladyNeverBehind(trace: seq<Key>, capacity: nat, o: seq<set<Key>>, p: seq<set<Key>>, n: nat)
    requires capacity >= 1 && n <= |trace|
    requires IsBelady(trace, capacity, o) && IsSchedule(trace, capacity, p)
    ensures
      var ahead := MissesUpTo(trace, p, n) + BypassesUpTo(trace, p, n) - MissesUpTo(trace, o, n);
      && ahead >= 0
      && forall t :: n <= t < |trace| ==> Lead(trace, n, o[n], p[n], t) <= ahead
  {
    if n == 0 {
      forall t | 0 <= t < |trace| ensures Lead(trace, 0, o[0], p[0], t) <= 0 {
        assert DueBy(trace, 0, p[0], t) == {};
      }
    } else {
      var i := n - 1;
      BeladyNeverBehind(trace, capacity, o, p, i);
      BeladyKeepsCapacity(trace, capacity, o, i);
      assert BeladyStep(trace, capacity, i, o[i], o[n]);
      assert ScheduleStep(trace, capacity, i, p[i], p[n]);
      if trace[i] in p[i] && trace[i] !in o[i] {
        assert DueBy(trace, i, o[i], i) == {};
        assert trace[i] in DueBy(trace, i, p[i], i);
        assert Lead(trace, i, o[i], p[i], i) >= 1;
      }
      var ahead := MissesUpTo(trace, p, n) + BypassesUpTo(trace, p, n) - MissesUpTo(trace, o, n);
      forall t | n <= t < |trace| ensures Lead(trace, n, o[n], p[n], t) <= ahead {
        LeadStep(trace, capacity, i, o[i], o[n], p[i], p[n], t);
      }
    }
  }

  // ---------------------------------------------------------------- the bound as a number

  lemma {:induction false} FurthestExists(trace: seq<Key>, i: nat, cache: set<Key>)
    requires i <= |trace| && cache != {}
    ensures exists victim :: IsFurthest(trace, i, cache, victim)
  {
    var k :| k in cache;
    if cache == {k} {
      assert IsFurthest(trace, i, cache, k);
    } else {
      FurthestExists(trace, i, cache - {k});
      var v :| IsFurthest(trace, i, cache - {k}, v);
      var w := if NextUse(trace, i, v) <= NextUse(trace, i, k) then k else v;
      assert IsFurthest(trace, i, cache, w);
    }
  }

  /** One run of the furthest-next-use policy, ties broken somehow. */
  ghost function BeladyRun(trace: seq<Key>, capacity: nat, n: nat): (contents: seq<set<Key>>)
    requires capacity >= 1 && n <= |trace|
    ensures |contents| == n + 1 && contents[0] == {}
    ensures forall i :: 0 <= i < n ==> BeladyStep(trace, capacity, i, contents[i], contents[i + 1])
  {
    if n == 0 then [{}]
    else
      var run := BeladyRun(trace, capacity, n - 1);
      var before, k := run[n - 1], trace[n - 1];
      if k in before then run + [before]
      else if |before| < capacity then run + [before + {k}]
      else
        FurthestExists(trace, n, before);
        var victim :| IsFurthest(trace, n, before, victim);
        run + [before - {victim} + {k}]
  }

  /** The miss count the oracle reports for `trace` at `capacity`. */
  ghost function OracleMisses(trace: seq<Key>, capacity: nat): nat
    requires capacity >= 1
  {
    Misses(trace, BeladyRun(trace, capacity, |trace|))
  }

  /** Against any policy at all, the oracle loses at most one miss per bypass. */
  lemma OracleWithinBypasses(trace: seq<Key>, capacity: nat, p: seq<set<Key>>)
    requires capacity >= 1 && IsSchedule(trace, capacity, p)
    ensures OracleMisses(trace, capacity) <= Misses(trace, p) + BypassesUpTo(trace, p, |trace|)
  {
    BeladyNeverBehind(trace, capacity, BeladyRun(trace, capacity, |trace|), p, |trace|);
  }

  lemma {:induction false} AdmittingNeverBypasses(trace: seq<Key>, capacity: nat, p: seq<set<Key>>, n: nat)
    requires IsAdmitting(trace, capacity, p) && n <= |trace|
    ensures BypassesUpTo(trace, p, n) == 0
  {
    if n > 0 {
      AdmittingNeverBypasses(trace, capacity, p, n - 1);
    }
  }

  /** Belady's MIN is optimal among policies that admit every missed key. */
  lemma OracleIsOptimal(trace: seq<Key>, capacity: nat, p: seq<set<Key>>)
    requires capacity >= 1 && IsAdmitting(trace, capacity, p)
    ensures OracleMisses(trace, capacity) <= Misses(trace, p)
  {
    OracleWithinBypasses(trace, capacity, p);
    AdmittingNeverBypasses(trace, capacity, p, |trace|);
  }

  /** How the oracle breaks ties among victims does not change its miss count. */
  lemma TiesDoNotMatter(trace: seq<Key>, capacity: nat, o: seq<set<Key>>)
    requires capacity >= 1 && IsBelady(trace, capacity, o)
    ensures Misses(trace, o) == OracleMisses(trace, capacity)
  {
    var run := BeladyRun(trace, capacity, |trace|);
    BeladyIsAdmitting(trace, capacity, o);
    BeladyIsAdmitting(trace, capacity, run);
    AdmittingNeverBypasses(trace, capacity, run, |trace|);
    BeladyNeverBehind(trace, capacity, o, run, |trace|);
    OracleIsOptimal(trace, capacity, o);
  }

  /** More slots never cost the oracle a miss. */
  lemma OracleMonotone(trace: seq<Key>, small: nat, large: nat)
    requires 1 <= small <= large
    ensures OracleMisses(trace, large) <= OracleMisses(trace, small)
  {
    var run := BeladyRun(trace, small, |trace|);
    BeladyIsAdmitting(trace, small, run);
    forall i | 0 <= i < |trace| ensures ScheduleStep(trace, large, i, run[i], run[i + 1]) {
      assert ScheduleStep(trace, small, i, run[i], run[i + 1]);
    }
    OracleIsOptimal(trace, large, run);
  }

  lemma {:induction false} MoreHeldFewerMisses(trace: seq<Key>, p: seq<set<Key>>, q: seq<set<Key>>, n: nat)
    requires n <= |trace| < |p| && |trace| < |q|
    requires forall i :: 0 <= i < n ==> p[i] <= q[i]
    ensures MissesUpTo(trace, q, n) <= MissesUpTo(trace, p, n)
  {
    if n > 0 {
      MoreHeldFewerMisses(trace, p, q, n - 1);
      assert p[n - 1] <= q[n - 1];
    }
  }

  /** One slot more than a bypassing policy makes the oracle a bound on it again. */
  lemma OneMoreSlotCoversBypassing(trace: seq<Key>, capacity: nat, p: seq<set<Key>>)
    requires capacity >= 1 && IsSchedule(trace, capacity, p)
    ensures OracleMisses(trace, capacity + 1) <= Misses(trace, p)
  {
    var q := seq(|trace| + 1, i requires 0 <= i < |p| && i <= |trace| => if i == 0 then {} else p[i] + {trace[i - 1]});
    forall i | 0 <= i < |trace| ensures ScheduleStep(trace, capacity + 1, i, q[i], q[i + 1]) {
      assert ScheduleStep(trace, capacity, i, p[i], p[i + 1]);
    }
    OracleIsOptimal(trace, capacity + 1, q);
    MoreHeldFewerMisses(trace, p, q, |trace|);
  }

  // ---------------------------------------------------------------- deterministic policies

  /** A policy's state before access `n`. */
  ghost function StateAt<S>(step: (S, Key) -> S, init: S, trace: seq<Key>, n: nat): S
    requires n <= |trace|
  {
    if n == 0 then init else step(StateAt(step, init, trace, n - 1), trace[n - 1])
  }

  /** The schedule a policy follows, given which keys each state holds. */
  ghost function Contents<S>(step: (S, Key) -> S, holds: S -> set<Key>, init: S, trace: seq<Key>): (c: seq<set<Key>>)
    ensures |c| == |trace| + 1
    ensures forall i {:trigger c[i]} :: 0 <= i <= |trace| ==> c[i] == holds(StateAt(step, init, trace, i))
  {
    seq(|trace| + 1, i requires 0 <= i <= |trace| => holds(StateAt(step, init, trace, i)))
  }

  /** One more access of a replay. */
  lemma ReplayStep<S>(step: (S, Key) -> S, holds: S -> set<Key>, init: S, trace: seq<Key>, n: nat)
    requires n < |trace|
    ensures StateAt(step, init, trace, n + 1) == step(StateAt(step, init, trace, n), trace[n])
    ensures
      var contents := Contents(step, holds, init, trace);
      MissesUpTo(trace, contents, n + 1) ==
        MissesUpTo(trace, contents, n) + if trace[n] in holds(StateAt(step, init, trace, n)) then 0 else 1
  {
    assert Contents(step, holds, init, trace)[n] == holds(StateAt(step, init, trace, n));
  }

  ghost predicate StepFits<S>(step: (S, Key) -> S, holds: S -> set<Key>, capacity: nat, s: S, k: Key) {
    holds(step(s, k)) <= holds(s) + {k} && |holds(step(s, k))| <= capacity
  }

  /** A policy whose invariant keeps every step within capacity follows a schedule. */
  lemma PolicyIsSchedule<S(!new)>(step: (S, Key) -> S, holds: S -> set<Key>, init: S, inv: S -> bool, capacity: nat,
                                  trace: seq<Key>)
    requires inv(init) && holds(init) == {}
    requires forall s, k {:trigger step(s, k)} :: inv(s) ==> inv(step(s, k)) && StepFits(step, holds, capacity, s, k)
    ensures IsSchedule(trace, capacity, Contents(step, holds, init, trace))
    ensures forall i :: 0 <= i <= |trace| ==> inv(StateAt(step, init, trace, i))
  {
    forall i | 0 <= i <= |trace| ensures inv(StateAt(step, init, trace, i)) {
      StateKeepsInvariant(step, init, inv, trace, i);
    }
    var c := Contents(step, holds, init, trace);
    forall i | 0 <= i < |trace| ensures ScheduleStep(trace, capacity, i, c[i], c[i + 1]) {
      assert inv(StateAt(step, init, trace, i));
      assert StateAt(step, init, trace, i + 1) == step(StateAt(step, init, trace, i), trace[i]);
    }
  }

  lemma {:induction false} StateKeepsInvariant<S(!new)>(step: (S, Key) -> S, init: S, inv: S -> bool, trace: seq<Key>,
                                                        n: nat)
    requires inv(init) && n <= |trace|
    requires forall s, k {:trigger step(s, k)} :: inv(s) ==> inv(step(s, k))
    ensures inv(StateAt(step, init, trace, n))
  {
    if n > 0 {
      StateKeepsInvariant(step, init, inv, trace, n - 1);
    }
  }
}
