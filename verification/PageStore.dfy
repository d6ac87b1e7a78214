/** The budgeted local page cache: rows in the database, page and manifest files, leases and
    reservations, all changed under one lock. A checksum is modelled by the bytes themselves. */
module PageStore {
  import opened Collections

  type Byte = bv8

  /** A page's cache key. */
  datatype PageKey = PageKey(cacheKey: string)

  datatype Row = Row(size: nat, lastAccess: int)

  datatype Manifest = Manifest(key: PageKey, size: nat, digest: seq<Byte>)

  datatype BudgetResult = Ok | CacheBudgetError

  datatype CommitResult = Committed(page: seq<Byte>) | OverBudget | IncompleteFragment

  // ---------------------------------------------------------------- sums over maps

  ghost function SumOf<K>(m: map<K, nat>): nat {
    if m == map[] then 0
    else
      var k :| k in m;
      m[k] + SumOf(m - {k})
  }

  lemma {:induction false} SumWithout<K>(m: map<K, nat>, k: K)
    requires k in m
    ensures SumOf(m) == m[k] + SumOf(m - {k})
    decreases |m|
  {
    var j :| j in m && SumOf(m) == m[j] + SumOf(m - {j});
    if j != k {
      SumWithout(m - {j}, k);
      SumWithout(m - {k}, j);
      assert m - {j} - {k} == m - {k} - {j};
    }
  }

  function At<K>(m: map<K, nat>, k: K): nat {
    if k in m then m[k] else 0
  }

  lemma SumAfterUpdate<K>(m: map<K, nat>, k: K, n: nat)
    ensures SumOf(m[k := n]) == SumOf(m) - At(m, k) + n
    ensures SumOf(m - {k}) == SumOf(m) - At(m, k)
  {
    SumWithout(m[k := n], k);
    assert m[k := n] - {k} == m - {k};
    if k in m {
      SumWithout(m, k);
    } else {
      assert m - {k} == m;
    }
  }

  function Sizes(rows: map<PageKey, Row>): map<PageKey, nat> {
    map k | k in rows :: rows[k].size
  }

  /** `SELECT COALESCE(SUM(size_bytes), 0) FROM pages`. */
  ghost function Occupancy(rows: map<PageKey, Row>): nat {
    SumOf(Sizes(rows))
  }

  lemma OccupancyAfterUpdate(rows: map<PageKey, Row>, k: PageKey, row: Row)
    ensures Occupancy(rows[k := row]) == Occupancy(rows) - At(Sizes(rows), k) + row.size
    ensures Occupancy(rows - {k}) == Occupancy(rows) - At(Sizes(rows), k)
  {
    SumAfterUpdate(Sizes(rows), k, row.size);
    assert Sizes(rows[k := row]) == Sizes(rows)[k := row.size];
    assert Sizes(rows - {k}) == Sizes(rows) - {k};
  }

  method SumSizes(sizes: map<PageKey, nat>) returns (total: nat)
    ensures total == SumOf(sizes)
  {
    total := 0;
    var rest := sizes;
    while rest != map[]
      invariant total + SumOf(rest) == SumOf(sizes)
      decreases |rest|
    {
      var k :| k in rest;
      SumWithout(rest, k);
      total := total + rest[k];
      rest := rest - {k};
    }
  }

  method Occupied(rows: map<PageKey, Row>) returns (total: nat)
    ensures total == Occupancy(rows)
  {
    total := SumSizes(Sizes(rows));
  }

  // ---------------------------------------------------------------- eviction

  /** A page that capacity eviction may take. */
  predicate Evictable(rows: map<PageKey, Row>, leases: map<PageKey, nat>, protectKey: PageKey, k: PageKey) {
    k in rows && k != protectKey && At(leases, k) == 0
  }

  /** Least recently accessed among the evictable pages. */
  ghost predicate IsVictim(rows: map<PageKey, Row>, leases: map<PageKey, nat>, protectKey: PageKey, victim: PageKey) {
    && Evictable(rows, leases, protectKey, victim)
    && forall k :: Evictable(rows, leases, protectKey, k) ==> rows[victim].lastAccess <= rows[k].lastAccess
  }

  /** `after` is what evicting victims one by one can leave of `before`. */
  ghost predicate IsEviction(before: map<PageKey, Row>, after: map<PageKey, Row>, leases: map<PageKey, nat>,
                             protectKey: PageKey) {
    && (forall k :: k in after ==> k in before && after[k] == before[k])
    && (forall k :: k in before && k !in after ==> Evictable(before, leases, protectKey, k))
    && forall k, r :: k in before && k !in after && Evictable(after, leases, protectKey, r) ==>
      before[k].lastAccess <= after[r].lastAccess
  }

  lemma NothingEvicted(rows: map<PageKey, Row>, leases: map<PageKey, nat>, protectKey: PageKey)
    ensures IsEviction(rows, rows, leases, protectKey)
  {
  }

  /** Something evicted on the way to `after` was needed: with it still there, `need` bytes
      would not have fit in `limit`. */
  ghost predicate WasNeeded(before: map<PageKey, Row>, after: map<PageKey, Row>, need: nat, limit: nat) {
    exists last :: last in before && last !in after && Occupancy(after[last := before[last]]) + need > limit
  }

  lemma VictimWasNeeded(before: map<PageKey, Row>, now: map<PageKey, Row>, victim: PageKey, need: nat, limit: nat)
    requires victim in before && victim in now && now[victim] == before[victim]
    requires Occupancy(now) + need > limit
    ensures WasNeeded(before, now - {victim}, need, limit)
  {
    assert (now - {victim})[victim := before[victim]] == now;
  }

  ghost predicate NoneEvictable(rows: map<PageKey, Row>, leases: map<PageKey, nat>, protectKey: PageKey) {
    forall k :: !Evictable(rows, leases, protectKey, k)
  }

  /** The rows that capacity eviction must leave. */
  ghost function Pinned(rows: map<PageKey, Row>, leases: map<PageKey, nat>, protectKey: PageKey): map<PageKey, Row> {
    map k | k in rows && !Evictable(rows, leases, protectKey, k) :: rows[k]
  }

  lemma VictimIsNotPinned(rows: map<PageKey, Row>, leases: map<PageKey, nat>, protectKey: PageKey, victim: PageKey)
    requires Evictable(rows, leases, protectKey, victim)
    ensures Pinned(rows - {victim}, leases, protectKey) == Pinned(rows, leases, protectKey)
  {
  }

  lemma AllPinned(rows: map<PageKey, Row>, leases: map<PageKey, nat>, protectKey: PageKey)
    requires NoneEvictable(rows, leases, protectKey)
    ensures Pinned(rows, leases, protectKey) == rows
  {
  }

  lemma {:induction false} SumOfPart<K>(part: map<K, nat>, whole: map<K, nat>)
    requires forall k :: k in part ==> k in whole && whole[k] == part[k]
    ensures SumOf(part) <= SumOf(whole)
    decreases |whole|
  {
    if k :| k in whole && k !in part {
      SumWithout(whole, k);
      SumOfPart(part, whole - {k});
    } else {
      assert part == whole;
    }
  }

  lemma PinnedFits(rows: map<PageKey, Row>, leases: map<PageKey, nat>, protectKey: PageKey)
    ensures Occupancy(Pinned(rows, leases, protectKey)) <= Occupancy(rows)
  {
    SumOfPart(Sizes(Pinned(rows, leases, protectKey)), Sizes(rows));
  }

  lemma EvictionStep(before: map<PageKey, Row>, now: map<PageKey, Row>, leases: map<PageKey, nat>, protectKey: PageKey,
                     victim: PageKey)
    requires IsEviction(before, now, leases, protectKey) && IsVictim(now, leases, protectKey, victim)
    ensures IsEviction(before, now - {victim}, leases, protectKey)
    ensures victim in before && victim in now && now[victim] == before[victim] && now.Keys <= before.Keys
  {
    forall k, r | k in before && k !in now - {victim} && Evictable(now - {victim}, leases, protectKey, r)
      ensures before[k].lastAccess <= now[r].lastAccess
    {
      assert Evictable(now, leases, protectKey, r);
    }
  }

  // ---------------------------------------------------------------- page contents

  function Concat(parts: seq<seq<Byte>>): seq<Byte> {
    if parts == [] then [] else parts[0] + Concat(parts[1..])
  }

  lemma {:induction false} ConcatAppend(parts: seq<seq<Byte>>, last: seq<Byte>)
    ensures Concat(parts + [last]) == Concat(parts) + last
  {
    if parts == [] {
      assert parts + [last] == [last];
    } else {
      assert (parts + [last])[1..] == parts[1..] + [last];
      ConcatAppend(parts[1..], last);
    }
  }

  /** Zeros up to `stride`. */
  function Padded(content: seq<Byte>, stride: nat): seq<Byte> {
    if |content| <= stride then content + Repeat<Byte>(0, stride - |content|) else content
  }

  ghost predicate AllComplete(sliceSizes: seq<nat>, fragments: seq<seq<Byte>>) {
    |sliceSizes| == |fragments| && forall i :: 0 <= i < |fragments| ==> |fragments[i]| == sliceSizes[i]
  }

  ghost predicate ByteInPlace(page: seq<Byte>, start: nat, fragment: seq<Byte>, b: nat)
    requires b < |fragment|
  {
    start + b < |page| && page[start + b] == fragment[b]
  }

  /** The fragments stand in the page one after another from its start, each behind the sizes of those
      before it, and zeros fill the rest. */
  ghost predicate IsLaidOut(page: seq<Byte>, sliceSizes: seq<nat>, fragments: seq<seq<Byte>>, stride: nat) {
    && |page| == stride && |sliceSizes| == |fragments|
    && (forall k: nat, b: nat :: k < |fragments| && b < |fragments[k]| ==>
      ByteInPlace(page, Sum(sliceSizes[..k]), fragments[k], b))
    && forall p :: Sum(sliceSizes) <= p < stride ==> page[p] == 0
  }

  lemma {:induction false} ConcatOfConcat(a: seq<seq<Byte>>, b: seq<seq<Byte>>)
    ensures Concat(a + b) == Concat(a) + Concat(b)
  {
    if a == [] {
      assert a + b == b;
    } else {
      assert (a + b)[1..] == a[1..] + b;
      ConcatOfConcat(a[1..], b);
    }
  }

  lemma {:induction false} ConcatLength(sliceSizes: seq<nat>, fragments: seq<seq<Byte>>)
    requires AllComplete(sliceSizes, fragments)
    ensures |Concat(fragments)| == Sum(sliceSizes)
  {
    if fragments != [] {
      var n := |fragments| - 1;
      ConcatLength(sliceSizes[..n], fragments[..n]);
      assert fragments == fragments[..n] + [fragments[n]];
      ConcatAppend(fragments[..n], fragments[n]);
    }
  }

  /** Where a byte of a fragment stands in the concatenation. */
  lemma ConcatAt(sliceSizes: seq<nat>, fragments: seq<seq<Byte>>, k: nat, b: nat)
    requires AllComplete(sliceSizes, fragments) && k < |fragments| && b < |fragments[k]|
    ensures Sum(sliceSizes[..k]) + b < |Concat(fragments)|
    ensures Concat(fragments)[Sum(sliceSizes[..k]) + b] == fragments[k][b]
  {
    var before, rest := fragments[..k], fragments[k..];
    assert fragments == before + rest;
    ConcatOfConcat(before, rest);
    ConcatLength(sliceSizes[..k], before);
  }

  lemma ConcatIsLaidOut(sliceSizes: seq<nat>, fragments: seq<seq<Byte>>, stride: nat)
    requires AllComplete(sliceSizes, fragments) && Sum(sliceSizes) <= stride
    ensures IsLaidOut(Padded(Concat(fragments), stride), sliceSizes, fragments, stride)
  {
    var content, page := Concat(fragments), Padded(Concat(fragments), stride);
    ConcatLength(sliceSizes, fragments);
    forall k: nat, b: nat | k < |fragments| && b < |fragments[k]|
      ensures ByteInPlace(page, Sum(sliceSizes[..k]), fragments[k], b)
    {
      ConcatAt(sliceSizes, fragments, k, b);
    }
  }

  /** The fragments copied in order, or nothing if one has the wrong size. */
  method CopyFragments(sliceSizes: seq<nat>, fragments: seq<seq<Byte>>) returns (output: Option<seq<Byte>>)
    requires |sliceSizes| == |fragments|
    ensures output.Some? <==> AllComplete(sliceSizes, fragments)
    ensures output.Some? ==> output.value == Concat(fragments) && |output.value| == Sum(sliceSizes)
  {
    var copied: seq<Byte> := [];
    for i := 0 to |fragments|
      invariant forall j :: 0 <= j < i ==> |fragments[j]| == sliceSizes[j]
      invariant copied == Concat(fragments[..i]) && |copied| == Sum(sliceSizes[..i])
    {
      if |fragments[i]| != sliceSizes[i] {
        return None;
      }
      assert fragments[..i + 1] == fragments[..i] + [fragments[i]];
      assert sliceSizes[..i + 1] == sliceSizes[..i] + [sliceSizes[i]];
      ConcatAppend(fragments[..i], fragments[i]);
      SumAppend(sliceSizes[..i], sliceSizes[i]);
      copied := copied + fragments[i];
    }
    assert fragments[..|fragments|] == fragments && sliceSizes[..|sliceSizes|] == sliceSizes;
    return Some(copied);
  }

  /** Zero padding in blocks of at most 1 MiB. */
  method PadWithZeros(content: seq<Byte>, stride: nat) returns (page: seq<Byte>)
    requires |content| <= stride
    ensures page == Padded(content, stride) && |page| == stride
    ensures content <= page && forall p :: |content| <= p < stride ==> page[p] == 0
  {
    var padding := stride - |content|;
    var zeros := Repeat<Byte>(0, if padding < 1048576 then padding else 1048576);
    page := content;
    while padding > 0
      invariant 0 <= padding <= stride - |content|
      invariant |zeros| == 1048576 || |zeros| >= padding
      invariant zeros == Repeat<Byte>(0, |zeros|)
      invariant page == content + Repeat<Byte>(0, stride - |content| - padding)
    {
      var block := if |zeros| <= padding then zeros else zeros[..padding];
      page := page + block;
      padding := padding - |block|;
    }
  }

  // ---------------------------------------------------------------- what every step keeps

  /** Both files of `k` are present and agree with each other. */
  predicate Intact(pages: map<PageKey, seq<Byte>>, manifests: map<PageKey, Manifest>, k: PageKey) {
    k in pages && k in manifests && manifests[k] == Manifest(k, |pages[k]|, pages[k])
  }

  /** The database row of `k`, if there is one, agrees with its files. */
  ghost predicate RowAgrees(rows: map<PageKey, Row>, pages: map<PageKey, seq<Byte>>, manifests: map<PageKey, Manifest>,
                            k: PageKey) {
    k in rows ==> Intact(pages, manifests, k) && rows[k].size == |pages[k]|
  }

  /** Intact files without a row. */
  ghost predicate IsOrphan(rows: map<PageKey, Row>, pages: map<PageKey, seq<Byte>>, manifests: map<PageKey, Manifest>,
                           k: PageKey) {
    Intact(pages, manifests, k) && k !in rows
  }

  lemma RowAgreesAfterPublish(rows: map<PageKey, Row>, pages: map<PageKey, seq<Byte>>,
                              manifests: map<PageKey, Manifest>, key: PageKey, page: seq<Byte>, now: int, k: PageKey)
    requires RowAgrees(rows, pages, manifests, k)
    ensures
      var rows', manifests' := rows[key := Row(|page|, now)], manifests[key := Manifest(key, |page|, page)];
      && RowAgrees(rows', pages[key := page], manifests', k)
      && (IsOrphan(rows', pages[key := page], manifests', k) ==> IsOrphan(rows, pages, manifests, k))
  {
  }

  /** Exactly the evicted rows lose their files. */
  ghost predicate FilesFollow<V>(before: map<PageKey, V>, after: map<PageKey, V>, rows: map<PageKey, Row>,
                                 rows': map<PageKey, Row>) {
    after == before - (rows.Keys - rows'.Keys)
  }

  lemma NothingFollows<V>(files: map<PageKey, V>, rows: map<PageKey, Row>)
    ensures FilesFollow(files, files, rows, rows)
  {
  }

  lemma EvictionFollows<V>(before: map<PageKey, V>, now: map<PageKey, V>, rows: map<PageKey, Row>,
                           rowsNow: map<PageKey, Row>, victim: PageKey)
    requires FilesFollow(before, now, rows, rowsNow) && victim in rowsNow && rowsNow.Keys <= rows.Keys
    ensures FilesFollow(before, now - {victim}, rows, rowsNow - {victim})
  {
    assert rows.Keys - (rowsNow - {victim}).Keys == rows.Keys - rowsNow.Keys + {victim};
  }

  lemma PublicationFollows<V>(before: map<PageKey, V>, now: map<PageKey, V>, rows: map<PageKey, Row>,
                              rowsNow: map<PageKey, Row>, key: PageKey, file: V, row: Row)
    requires FilesFollow(before, now, rows, rowsNow) && (key in rows ==> key in rowsNow)
    ensures FilesFollow(before - {key}, now[key := file] - {key}, rows, rowsNow[key := row])
  {
    assert rows.Keys - rowsNow[key := row].Keys == rows.Keys - rowsNow.Keys;
  }

  /** Pages are only removed, never rewritten. */
  ghost predicate PagesKept(before: map<PageKey, seq<Byte>>, after: map<PageKey, seq<Byte>>) {
    forall k :: k in after ==> k in before && after[k] == before[k]
  }

  lemma AllKept(pages: map<PageKey, seq<Byte>>)
    ensures PagesKept(pages, pages)
  {
  }

  lemma KeptWithout(before: map<PageKey, seq<Byte>>, now: map<PageKey, seq<Byte>>, k: PageKey)
    requires PagesKept(before, now)
    ensures PagesKept(before, now - {k})
  {
  }

  /** The leases of `k` count its handles, and a page with a handle is still there. */
  ghost predicate HandlesAreSafe(outstanding: multiset<PageKey>, leases: map<PageKey, nat>, rows: map<PageKey, Row>,
                                 k: PageKey) {
    outstanding[k] == At(leases, k) && (At(leases, k) > 0 ==> k in rows)
  }

  ghost predicate WithinBudget(rows: map<PageKey, Row>, reservations: map<PageKey, nat>, limit: nat) {
    Occupancy(rows) + SumOf(reservations) <= limit
  }

  /** Replacing the row of `k` while dropping its reservation. */
  lemma BudgetAfterCommit(rows: map<PageKey, Row>, reservations: map<PageKey, nat>, limit: nat, k: PageKey, row: Row)
    requires Occupancy(rows) + SumOf(reservations - {k}) + row.size <= limit
    ensures WithinBudget(rows[k := row], reservations - {k}, limit)
  {
    OccupancyAfterUpdate(rows, k, row);
  }

  /** `lookup` re-inserts a row without a capacity check. The budget survives exactly if the
      growth of that row fits; a page whose row was lost is counted in full. */
  lemma BudgetAfterLookup(rows: map<PageKey, Row>, reservations: map<PageKey, nat>, limit: nat, k: PageKey, row: Row)
    ensures WithinBudget(rows[k := row], reservations, limit) <==>
      Occupancy(rows) + SumOf(reservations) + row.size - At(Sizes(rows), k) <= limit
  {
    OccupancyAfterUpdate(rows, k, row);
  }

  // ---------------------------------------------------------------- the store

  class PocketTitanPageStore {
    const maxCacheBytes: nat
    var rows: map<PageKey, Row>
    var pages: map<PageKey, seq<Byte>>
    var manifests: map<PageKey, Manifest>
    var leases: map<PageKey, nat>
    var reservations: map<PageKey, nat>
    var evictions: nat
    var corruptions: nat
    /** Handles given out and not yet released, by page. */
    ghost var outstanding: multiset<PageKey>

    /** Every database row agrees with its files. */
    ghost predicate Agree()
      reads this
    {
      forall k :: RowAgrees(rows, pages, manifests, k)
    }

    ghost predicate NoOrphans()
      reads this
    {
      forall k :: !IsOrphan(rows, pages, manifests, k)
    }

    ghost predicate Valid()
      reads this
    {
      && Agree()
      && WithinBudget(rows, reservations, maxCacheBytes)
      && forall k :: HandlesAreSafe(outstanding, leases, rows, k)
    }

    /** As long as no commit is cut short, every intact page also has its row. */
    ghost predicate Settled()
      reads this
    {
      Valid() && NoOrphans()
    }

    constructor (maxCacheBytes: nat)
      ensures Settled() && this.maxCacheBytes == maxCacheBytes
      ensures rows == map[] && leases == map[] && reservations == map[]
    {
      this.maxCacheBytes := maxCacheBytes;
      rows, pages, manifests, leases, reservations := map[], map[], map[], map[], map[];
      evictions, corruptions := 0, 0;
      outstanding := multiset{};
      new;
      assert Sizes(rows) == map[];
    }

    /** The process ends and starts again between two steps: leases and reservations are in
        memory only. */
    method Restart()
      requires Valid()
      modifies this`leases, this`reservations, this`outstanding
      ensures Valid() && (old(NoOrphans()) ==> NoOrphans()) && leases == map[] && reservations == map[]
    {
      leases, reservations := map[], map[];
      outstanding := multiset{};
    }

    /** The first row, by last access, that is neither protected nor leased. */
    method FindVictim(protectKey: PageKey) returns (victim: Option<PageKey>)
      ensures victim.None? ==> NoneEvictable(rows, leases, protectKey)
      ensures victim.Some? ==> IsVictim(rows, leases, protectKey, victim.value)
    {
      victim := None;
      var unseen := rows.Keys;
      while unseen != {}
        invariant unseen <= rows.Keys
        invariant victim.None? ==> forall k :: Evictable(rows, leases, protectKey, k) ==> k in unseen
        invariant victim.Some? ==> Evictable(rows, leases, protectKey, victim.value)
        invariant victim.Some? ==> forall k :: Evictable(rows, leases, protectKey, k) && k !in unseen ==>
          rows[victim.value].lastAccess <= rows[k].lastAccess
      {
        var k :| k in unseen;
        unseen := unseen - {k};
        if Evictable(rows, leases, protectKey, k) {
          if victim.None? || rows[k].lastAccess < rows[victim.value].lastAccess {
            victim := Some(k);
          }
        }
      }
    }

    method Evict(key: PageKey)
      requires Agree() && key in rows
      modifies this`rows, this`pages, this`manifests, this`evictions
      ensures Agree() && (old(NoOrphans()) ==> NoOrphans())
      ensures rows == old(rows) - {key} && evictions == old(evictions) + 1
      ensures pages == old(pages) - {key} && manifests == old(manifests) - {key}
      ensures Occupancy(rows) <= Occupancy(old(rows))
    {
      OccupancyAfterUpdate(rows, key, rows[key]);
      pages, manifests, rows := pages - {key}, manifests - {key}, rows - {key};
      evictions := evictions + 1;
      forall k
        ensures RowAgrees(rows, pages, manifests, k)
        ensures IsOrphan(rows, pages, manifests, k) ==> IsOrphan(old(rows), old(pages), old(manifests), k)
      {
        assert RowAgrees(old(rows), old(pages), old(manifests), k);
      }
    }

    /** Whether `size` bytes for `key` fit once everything that may be evicted is. */
    ghost predicate CanFit(size: nat, key: PageKey)
      reads this
    {
      Occupancy(Pinned(rows, leases, key)) + SumOf(reservations - {key}) + size <= maxCacheBytes
    }

    /** Evict until `incoming` bytes fit beside everything reserved for other pages. */
    method EnsureCapacity(incoming: nat, protectKey: PageKey) returns (result: BudgetResult)
      requires Agree()
      modifies this`rows, this`pages, this`manifests, this`evictions
      ensures Agree() && (old(NoOrphans()) ==> NoOrphans())
      ensures IsEviction(old(rows), rows, leases, protectKey) && PagesKept(old(pages), pages)
      ensures FilesFollow(old(pages), pages, old(rows), rows) && FilesFollow(old(manifests), manifests, old(rows), rows)
      ensures Occupancy(rows) <= Occupancy(old(rows))
      ensures
        var need := SumOf(reservations - {protectKey}) + incoming;
        && (result.Ok? ==> Occupancy(rows) + need <= maxCacheBytes)
        && (result.CacheBudgetError? && incoming > maxCacheBytes ==> rows == old(rows))
        && (result.CacheBudgetError? && incoming <= maxCacheBytes ==>
              Occupancy(rows) + need > maxCacheBytes && NoneEvictable(rows, leases, protectKey))
        && (rows == old(rows) || WasNeeded(old(rows), rows, need, maxCacheBytes))
      ensures result.Ok? <==> old(CanFit(incoming, protectKey))
    {
      hide FilesFollow, WasNeeded, IsEviction, PagesKept, SumOf, Pinned, Occupancy, RowAgrees;
      NothingFollows(pages, rows);
      NothingFollows(manifests, rows);
      AllKept(pages);
      NothingEvicted(rows, leases, protectKey);
      if incoming > maxCacheBytes {
        return CacheBudgetError;
      }
      var reservedElsewhere := SumSizes(reservations - {protectKey});
      result := EvictUntilFits(reservedElsewhere + incoming, protectKey);
    }

    method EvictUntilFits(need: nat, protectKey: PageKey) returns (result: BudgetResult)
      requires Agree()
      modifies this`rows, this`pages, this`manifests, this`evictions
      ensures Agree() && (old(NoOrphans()) ==> NoOrphans())
      ensures IsEviction(old(rows), rows, leases, protectKey) && PagesKept(old(pages), pages)
      ensures FilesFollow(old(pages), pages, old(rows), rows) && FilesFollow(old(manifests), manifests, old(rows), rows)
      ensures Occupancy(rows) <= Occupancy(old(rows))
      ensures result.Ok? <==> Occupancy(rows) + need <= maxCacheBytes
      ensures result.Ok? <==> Occupancy(Pinned(old(rows), leases, protectKey)) + need <= maxCacheBytes
      ensures result.CacheBudgetError? ==> NoneEvictable(rows, leases, protectKey)
      ensures rows == old(rows) || WasNeeded(old(rows), rows, need, maxCacheBytes)
    {
      hide FilesFollow, WasNeeded, IsEviction, PagesKept, SumOf, Pinned, Occupancy, RowAgrees;
      AllKept(pages);
      NothingEvicted(rows, leases, protectKey);
      NothingFollows(pages, rows);
      NothingFollows(manifests, rows);
      var occupied := Occupied(rows);
      while occupied + need > maxCacheBytes
        invariant occupied == Occupancy(rows) <= Occupancy(old(rows))
        invariant Agree() && (old(NoOrphans()) ==> NoOrphans())
        invariant IsEviction(old(rows), rows, leases, protectKey) && PagesKept(old(pages), pages)
        invariant FilesFollow(old(pages), pages, old(rows), rows)
        invariant FilesFollow(old(manifests), manifests, old(rows), rows)
        invariant rows == old(rows) || WasNeeded(old(rows), rows, need, maxCacheBytes)
        invariant Pinned(rows, leases, protectKey) == Pinned(old(rows), leases, protectKey)
        decreases |rows|
      {
        var victim := FindVictim(protectKey);
        if victim.None? {
          AllPinned(rows, leases, protectKey);
          return CacheBudgetError;
        }
        VictimIsNotPinned(rows, leases, protectKey, victim.value);
        EvictionStep(old(rows), rows, leases, protectKey, victim.value);
        EvictionFollows(old(pages), pages, old(rows), rows, victim.value);
        EvictionFollows(old(manifests), manifests, old(rows), rows, victim.value);
        VictimWasNeeded(old(rows), rows, victim.value, need, maxCacheBytes);
        KeptWithout(old(pages), pages, victim.value);
        Evict(victim.value);
        occupied := Occupied(rows);
      }
      PinnedFits(rows, leases, protectKey);
      return Ok;
    }

    /** Eviction spares leased pages, so handles stay safe. */
    lemma EvictionKeepsHandles(before: map<PageKey, Row>, after: map<PageKey, Row>, protectKey: PageKey)
      requires IsEviction(before, after, leases, protectKey)
      requires forall k :: HandlesAreSafe(outstanding, leases, before, k)
      ensures forall k :: HandlesAreSafe(outstanding, leases, after, k)
    {
      forall k ensures HandlesAreSafe(outstanding, leases, after, k) {
        assert HandlesAreSafe(outstanding, leases, before, k);
      }
    }

    /** Nothing more can be evicted, and still `size` bytes do not fit. */
    ghost predicate NoRoom(size: nat, key: PageKey)
      reads this
    {
      || size > maxCacheBytes
      || (Occupancy(rows) + SumOf(reservations - {key}) + size > maxCacheBytes && NoneEvictable(rows, leases, key))
    }

    method Reserve(key: PageKey, size: nat) returns (result: BudgetResult)
      requires Valid()
      modifies this`rows, this`pages, this`manifests, this`evictions, this`reservations
      ensures Valid() && (old(NoOrphans()) ==> NoOrphans())
      ensures IsEviction(old(rows), rows, leases, key) && PagesKept(old(pages), pages)
      ensures FilesFollow(old(pages), pages, old(rows), rows) && FilesFollow(old(manifests), manifests, old(rows), rows)
      ensures reservations ==
        if result.Ok? && key !in old(reservations) then old(reservations)[key := size] else old(reservations)
      ensures key in old(reservations) ==> result.Ok? && rows == old(rows)
      ensures result.Ok? <==> key in old(reservations) || old(CanFit(size, key))
      ensures result.CacheBudgetError? ==> NoRoom(size, key)
      ensures result.Ok? ==> (CanFit(size, key) <==> old(CanFit(size, key)))
    {
      if key in reservations {
        return Ok;
      }
      result := EnsureCapacity(size, key);
      EvictionKeepsHandles(old(rows), rows, key);
      assert reservations - {key} == reservations;
      if result.Ok? {
        SumAfterUpdate(reservations, key, size);
        PinnedFits(rows, leases, key);
        assert reservations[key := size] - {key} == reservations;
        reservations := reservations[key := size];
      }
    }

    method CancelReservation(key: PageKey)
      requires Valid()
      modifies this`reservations
      ensures Valid() && (old(NoOrphans()) ==> NoOrphans()) && reservations == old(reservations) - {key}
    {
      SumAfterUpdate(reservations, key, 0);
      reservations := reservations - {key};
    }

    /** Assemble the page and publish it. On success the caller holds a handle. */
    method Commit(key: PageKey, sliceSizes: seq<nat>, fragments: seq<seq<Byte>>, stride: nat, now: int)
      returns (result: CommitResult)
      requires Valid()
      requires |sliceSizes| == |fragments| && Sum(sliceSizes) <= stride
      modifies this
      ensures Valid() && (old(NoOrphans()) ==> NoOrphans())
      ensures result.Committed? ==>
        && AllComplete(sliceSizes, fragments) && result.page == Padded(Concat(fragments), stride)
        && IsLaidOut(result.page, sliceSizes, fragments, stride)
        && key in pages && pages[key] == result.page && key in rows && rows[key] == Row(stride, now)
        && PagesKept(old(pages), pages - {key})
        && FilesFollow(old(pages) - {key}, pages - {key}, old(rows), rows)
        && FilesFollow(old(manifests) - {key}, manifests - {key}, old(rows), rows)
        && reservations == old(reservations) - {key} && outstanding == old(outstanding) + multiset{key}
        && exists kept :: IsEviction(old(rows), kept, old(leases), key) && rows == kept[key := Row(stride, now)]
      ensures !result.Committed? ==>
        && IsEviction(old(rows), rows, leases, key) && PagesKept(old(pages), pages)
        && FilesFollow(old(pages), pages, old(rows), rows) && FilesFollow(old(manifests), manifests, old(rows), rows)
        && reservations == old(reservations) && outstanding == old(outstanding)
      ensures result.IncompleteFragment? <==> old(CanFit(stride, key)) && !AllComplete(sliceSizes, fragments)
      ensures result.OverBudget? <==> !old(CanFit(stride, key))
      ensures result.OverBudget? ==> NoRoom(stride, key)
    {
      hide FilesFollow, Padded, HandlesAreSafe, Concat, CanFit, Pinned, Occupancy, RowAgrees, IsLaidOut;
      var room := EnsureCapacity(stride, key);
      EvictionKeepsHandles(old(rows), rows, key);
      if room.CacheBudgetError? {
        return OverBudget;
      }
      var content := CopyFragments(sliceSizes, fragments);
      if content.None? {
        return IncompleteFragment;
      }
      var page := PadWithZeros(content.value, stride);
      ConcatIsLaidOut(sliceSizes, fragments, stride);
      BudgetAfterCommit(rows, reservations, maxCacheBytes, key, Row(stride, now));
      PublicationFollows(old(pages), pages, old(rows), rows, key, page, Row(stride, now));
      PublicationFollows(old(manifests), manifests, old(rows), rows, key, Manifest(key, |page|, page),
                         Row(stride, now));
      Publish(key, page, now);
      result := Committed(page);
    }

    /** Rename, manifest, row, lease: the tail of `commit`. */
    method Publish(key: PageKey, page: seq<Byte>, now: int)
      requires Agree() && forall k :: HandlesAreSafe(outstanding, leases, rows, k)
      requires WithinBudget(rows[key := Row(|page|, now)], reservations - {key}, maxCacheBytes)
      modifies this`rows, this`pages, this`manifests, this`leases, this`reservations, this`outstanding
      ensures Valid() && (old(NoOrphans()) ==> NoOrphans())
      ensures manifests == old(manifests)[key := Manifest(key, |page|, page)]
      ensures pages == old(pages)[key := page] && rows == old(rows)[key := Row(|page|, now)]
      ensures reservations == old(reservations) - {key} && outstanding == old(outstanding) + multiset{key}
    {
      pages := pages[key := page];
      manifests := manifests[key := Manifest(key, |page|, page)];
      rows := rows[key := Row(|page|, now)];
      reservations := reservations - {key};
      leases := leases[key := At(leases, key) + 1];
      outstanding := outstanding + multiset{key};
      forall k
        ensures RowAgrees(rows, pages, manifests, k)
        ensures IsOrphan(rows, pages, manifests, k) ==> IsOrphan(old(rows), old(pages), old(manifests), k)
      {
        RowAgreesAfterPublish(old(rows), old(pages), old(manifests), key, page, now, k);
      }
      forall k ensures HandlesAreSafe(outstanding, leases, rows, k) {
        assert HandlesAreSafe(old(outstanding), old(leases), old(rows), k);
      }
    }

    /** A hit re-inserts the row, with no capacity check. A miss drops the row, and both files
        if they are there but disagree; a file without the other stays. */
    method Lookup(key: PageKey, acquire: bool, now: int) returns (page: Option<seq<Byte>>)
      modifies this
      ensures page.Some? <==>
        && key in old(pages) && key in old(manifests) && old(manifests)[key].key == key
        && old(manifests)[key].size == |old(pages)[key]| && old(manifests)[key].digest == old(pages)[key]
      ensures page.Some? <==> Intact(old(pages), old(manifests), key)
      ensures page.Some? ==>
        && pages == old(pages) && manifests == old(manifests) && page.value == pages[key]
        && rows == old(rows)[key := Row(|page.value|, now)]
        && leases == (if acquire then old(leases)[key := At(old(leases), key) + 1] else old(leases))
        && outstanding == (if acquire then old(outstanding) + multiset{key} else old(outstanding))
      ensures page.None? ==>
        && rows == old(rows) - {key} && !Intact(pages, manifests, key)
        && (if key in old(pages) && key in old(manifests)
            then pages == old(pages) - {key} && manifests == old(manifests) - {key}
            else pages == old(pages) && manifests == old(manifests))
        && leases == old(leases) && outstanding == old(outstanding)
      ensures reservations == old(reservations)
      ensures forall k :: k != key ==> (Intact(pages, manifests, k) <==> Intact(old(pages), old(manifests), k))
      ensures PagesKept(old(pages), pages)
    {
      if key !in pages || key !in manifests {
        rows := rows - {key};
        return None;
      }
      if !Intact(pages, manifests, key) {
        corruptions := corruptions + 1;
        pages, manifests, rows := pages - {key}, manifests - {key}, rows - {key};
        return None;
      }
      rows := rows[key := Row(|pages[key]|, now)];
      if acquire {
        leases := leases[key := At(leases, key) + 1];
        outstanding := outstanding + multiset{key};
      }
      return Some(pages[key]);
    }

    /** The process ends after the page and its manifest are in place and before the row is. */
    method CommitCutShort(key: PageKey, sliceSizes: seq<nat>, fragments: seq<seq<Byte>>, stride: nat)
      returns (orphaned: bool)
      requires Valid() && key !in rows
      requires |sliceSizes| == |fragments| && Sum(sliceSizes) <= stride
      modifies this
      ensures Valid() && leases == map[] && reservations == map[]
      ensures IsEviction(old(rows), rows, old(leases), key)
      ensures orphaned ==>
        && IsOrphan(rows, pages, manifests, key)
        && pages[key] == Padded(Concat(fragments), stride) && IsLaidOut(pages[key], sliceSizes, fragments, stride)
      ensures orphaned <==> old(CanFit(stride, key)) && AllComplete(sliceSizes, fragments)
    {
      var room := EnsureCapacity(stride, key);
      EvictionKeepsHandles(old(rows), rows, key);
      if room.CacheBudgetError? {
        Restart();
        return false;
      }
      var content := CopyFragments(sliceSizes, fragments);
      if content.None? {
        Restart();
        return false;
      }
      var page := PadWithZeros(content.value, stride);
      ConcatIsLaidOut(sliceSizes, fragments, stride);
      Rename(key, page);
      Restart();
      return true;
    }

    /** The page's files, without its row. */
    method Rename(key: PageKey, page: seq<Byte>)
      requires Valid() && key !in rows
      modifies this`pages, this`manifests
      ensures Valid() && IsOrphan(rows, pages, manifests, key) && pages == old(pages)[key := page]
    {
      pages := pages[key := page];
      manifests := manifests[key := Manifest(key, |page|, page)];
      forall k ensures RowAgrees(rows, pages, manifests, k) {
        assert RowAgrees(rows, old(pages), old(manifests), k);
      }
    }

    /** Looking up a page that is not an orphan keeps every invariant. */
    method LookupWhenAgreed(key: PageKey, acquire: bool, now: int) returns (page: Option<seq<Byte>>)
      requires Valid() && !IsOrphan(rows, pages, manifests, key)
      modifies this
      ensures Valid() && (old(NoOrphans()) ==> NoOrphans())
      ensures page.Some? <==> key in old(rows)
      ensures page.Some? ==> key in old(pages) && page.value == old(pages)[key]
      ensures rows == if page.Some? then old(rows)[key := Row(|page.value|, now)] else old(rows)
      ensures PagesKept(old(pages), pages) && reservations == old(reservations)
      ensures page.None? ==> leases == old(leases)
      ensures outstanding == old(outstanding) + if page.Some? && acquire then multiset{key} else multiset{}
    {
      assert RowAgrees(rows, pages, manifests, key) && HandlesAreSafe(outstanding, leases, rows, key);
      page := Lookup(key, acquire, now);
      if page.Some? {
        BudgetAfterLookup(old(rows), reservations, maxCacheBytes, key, Row(|page.value|, now));
        assert Sizes(old(rows))[key] == |page.value|;
      } else {
        assert rows == old(rows);
      }
      forall k
        ensures RowAgrees(rows, pages, manifests, k) && HandlesAreSafe(outstanding, leases, rows, k)
        ensures IsOrphan(rows, pages, manifests, k) ==> IsOrphan(old(rows), old(pages), old(manifests), k)
      {
        assert RowAgrees(old(rows), old(pages), old(manifests), k);
        assert HandlesAreSafe(old(outstanding), old(leases), old(rows), k);
      }
    }

    method Release(key: PageKey)
      requires Valid()
      modifies this`leases, this`outstanding
      ensures Valid() && (old(NoOrphans()) ==> NoOrphans()) && outstanding == old(outstanding) - multiset{key}
    {
      var count := At(leases, key);
      leases := if count <= 1 then leases - {key} else leases[key := count - 1];
      outstanding := outstanding - multiset{key};
      forall k ensures HandlesAreSafe(outstanding, leases, rows, k) {
        assert HandlesAreSafe(old(outstanding), old(leases), rows, k);
      }
    }
  }

  // ---------------------------------------------------------------- every interleaving

  /** One lock-held step, by any thread. */
  datatype Op =
    | ReserveOp(key: PageKey, size: nat)
    | CancelOp(key: PageKey)
    | CommitOp(key: PageKey, sliceSizes: seq<nat>, fragments: seq<seq<Byte>>, stride: nat)
    | LookupOp(key: PageKey, acquire: bool)
    | ReleaseOp(key: PageKey)
    | RestartOp

  /** Fragments of any lengths, against slices that fit the page. */
  ghost predicate FitsPage(op: Op) {
    op.CommitOp? ==> |op.sliceSizes| == |op.fragments| && Sum(op.sliceSizes) <= op.stride
  }

  /** Whatever the order of steps and whatever the clock says, the budget holds, rows and
      files agree, and the page of every unreleased handle is present. */
  method RunSteps(store: PocketTitanPageStore, ops: seq<Op>, clock: seq<int>)
    requires store.Settled() && |clock| == |ops| && forall i :: 0 <= i < |ops| ==> FitsPage(ops[i])
    modifies store
    ensures store.Settled()
    ensures WithinBudget(store.rows, store.reservations, store.maxCacheBytes)
    ensures forall k :: k in store.outstanding ==> k in store.pages && k in store.rows
  {
    for i := 0 to |ops|
      invariant store.Settled()
    {
      match ops[i]
      case ReserveOp(key, size) => var r := store.Reserve(key, size);
      case CancelOp(key) => store.CancelReservation(key);
      case CommitOp(key, sliceSizes, fragments, stride) =>
        var r := store.Commit(key, sliceSizes, fragments, stride, clock[i]);
      case LookupOp(key, acquire) => var p := store.LookupWhenAgreed(key, acquire, clock[i]);
      case ReleaseOp(key) => store.Release(key);
      case RestartOp => store.Restart();
    }
    forall k | k in store.outstanding ensures k in store.pages && k in store.rows {
      assert HandlesAreSafe(store.outstanding, store.leases, store.rows, k);
      assert RowAgrees(store.rows, store.pages, store.manifests, k);
    }
  }

  /** A commit cut short costs the budget: once the space it left is taken, looking the orphan up
      puts its row back unchecked. */
  method OrphanBreaksBudget() returns (store: PocketTitanPageStore, found: Option<seq<Byte>>)
    ensures fresh(store) && found == Some([0])
    ensures !WithinBudget(store.rows, store.reservations, store.maxCacheBytes)
  {
    hide FilesFollow, HandlesAreSafe, RowAgrees, IsEviction, Padded, Concat, SumOf, Occupancy, AllComplete, Sum;
    var a, b := PageKey("a"), PageKey("b");
    store := new PocketTitanPageStore(1);
    OneBytePage();
    NothingTaken();
    var orphaned := store.CommitCutShort(b, [1], [[0]], 1);
    EvictedFromNothing(store.rows, map[], b);
    assert orphaned;
    ghost var pages, manifests := store.pages, store.manifests;
    CommitToEmpty(store, a);
    OnePageOccupies(a, Row(1, 0));
    OthersStay(pages, store.pages, store.rows, a, b);
    OthersStay(manifests, store.manifests, store.rows, a, b);
    BudgetAfterLookup(store.rows, store.reservations, 1, b, Row(1, 1));
    found := store.Lookup(b, false, 1);
  }

  /** A one-byte page into a store of one byte that has no rows. */
  method CommitToEmpty(store: PocketTitanPageStore, key: PageKey)
    requires store.Valid() && store.maxCacheBytes == 1
    requires store.rows == map[] && store.leases == map[] && store.reservations == map[]
    modifies store
    ensures store.Valid() && store.rows == map[key := Row(1, 0)] && store.reservations == map[]
    ensures FilesFollow(old(store.pages) - {key}, store.pages - {key}, map[], store.rows)
    ensures FilesFollow(old(store.manifests) - {key}, store.manifests - {key}, map[], store.rows)
  {
    hide FilesFollow, HandlesAreSafe, RowAgrees, IsEviction, Padded, Concat, SumOf, Occupancy, AllComplete, Sum;
    OneBytePage();
    NothingTaken();
    assert store.reservations - {key} == map[];
    var committed := store.Commit(key, [1], [[0]], 1, 0);
    if committed.Committed? {
      ghost var kept :| IsEviction(map[], kept, map[], key) && store.rows == kept[key := Row(1, 0)];
      EvictedFromNothing(kept, map[], key);
    } else {
      EvictedFromNothing(store.rows, store.leases, key);
      assert false;
    }
  }

  lemma OneBytePage()
    ensures AllComplete([1], [[0]]) && Sum([1]) == 1 && Padded(Concat([[0]]), 1) == [0]
  {
    assert Concat([[0]]) == [0];
  }

  lemma NothingTaken()
    ensures Occupancy(map[]) == 0
    ensures forall reservations: map<PageKey, nat> :: reservations == map[] ==> SumOf(reservations) == 0
  {
    assert Sizes(map[]) == map[];
  }

  lemma OnePageOccupies(key: PageKey, row: Row)
    ensures Occupancy(map[][key := row]) == row.size
  {
    NothingTaken();
    OccupancyAfterUpdate(map[], key, row);
  }

  lemma EvictedFromNothing(after: map<PageKey, Row>, leases: map<PageKey, nat>, key: PageKey)
    requires IsEviction(map[], after, leases, key)
    ensures after == map[]
  {
  }

  lemma OthersStay<V>(before: map<PageKey, V>, now: map<PageKey, V>, rows': map<PageKey, Row>, key: PageKey,
                      other: PageKey)
    requires FilesFollow(before - {key}, now - {key}, map[], rows') && other != key && other in before
    ensures other in now && now[other] == before[other]
  {
    assert other in before - {key};
    assert other in now - {key};
  }
}
