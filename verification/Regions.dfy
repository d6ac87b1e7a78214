/** Region files of a package under construction: what has been written, what is durable, and
    what a journal may promise about them. */
module Regions {
  import opened Collections
  import Crc32c

  type Byte = bv8

  /** A contiguous run of planned bytes. */
  datatype Extent = Extent(offset: nat, payload: seq<Byte>) {
    function End(): nat { offset + |payload| }
  }

  predicate Covers(e: Extent, a: int) {
    e.offset <= a < e.End()
  }

  ghost predicate Apart(e: Extent, f: Extent) {
    e.End() <= f.offset || f.End() <= e.offset
  }

  /** A unit of work: a dense tensor, an expert record, or a shard of page-packed rows. */
  datatype Item = Item(id: int, extents: seq<Extent>)

  /** The item's encoded bytes in the order they are written. */
  function Block(extents: seq<Extent>): seq<Byte> {
    if extents == [] then [] else extents[0].payload + Block(extents[1..])
  }

  /** The planned contents of one region file, and how many items share a journal commit. */
  datatype RegionPlan = RegionPlan(items: seq<Item>, total: nat, batch: nat)

  ghost predicate ItemsApart(x: Item, y: Item) {
    forall e, f :: e in x.extents && f in y.extents ==> Apart(e, f)
  }

  ghost predicate ExtentsApart(extents: seq<Extent>) {
    forall j, k :: 0 <= j < k < |extents| ==> Apart(extents[j], extents[k])
  }

  ghost predicate InBounds(x: Item, total: nat) {
    forall e :: e in x.extents ==> e.End() <= total
  }

  ghost predicate WellPlanned(plan: RegionPlan) {
    && plan.batch >= 1
    && (plan.items == [] ==> plan.total == 0)
    && Distinct(plan.items)
    && (forall x :: x in plan.items ==> ExtentsApart(x.extents) && InBounds(x, plan.total))
    && (forall x, y :: x in plan.items && y in plan.items && x != y ==> x.id != y.id && ItemsApart(x, y))
  }

  /** Some item of the plan writes address `a`. */
  ghost predicate Planned(plan: RegionPlan, a: int) {
    exists x, e :: x in plan.items && e in x.extents && Covers(e, a)
  }

  // ---------------------------------------------------------------- the file

  /** A region file: its contents, the length known durable, and the addresses written since
      the last sync. */
  datatype Region = Region(content: seq<Byte>, synced: nat, dirty: set<int>)

  const NO_FILE := Region([], 0, {})

  /** `_preallocate`: create or extend the file, never shrink it. */
  function Preallocated(file: Region, size: nat): Region {
    if |file.content| < size then file.(content := file.content + Repeat<Byte>(0, size - |file.content|)) else file
  }

  function Addresses(e: Extent): set<int> {
    set a | e.offset <= a < e.End() && Covers(e, a)
  }

  /** Seek and write. */
  function Written(file: Region, e: Extent): Region
    requires e.End() <= |file.content|
  {
    Region(file.content[..e.offset] + e.payload + file.content[e.End()..], file.synced, file.dirty + Addresses(e))
  }

  /** Flush and fsync. */
  function Synced(file: Region): Region {
    Region(file.content, |file.content|, {})
  }

  /** What a crash may leave of a file: every unsynced address is arbitrary, unsynced growth
      may be lost, everything else stands. */
  predicate MayBecome(file: Region, after: Region) {
    && file.synced <= |after.content| <= |file.content|
    && after.synced == |after.content|
    && after.dirty == {}
    && forall a :: 0 <= a < |after.content| && a !in file.dirty ==> after.content[a] == file.content[a]
  }

  // ---------------------------------------------------------------- what a journal promises

  datatype Checksum = Checksum(value: bv32, length: nat)

  function ChecksumOf(x: Item): Checksum {
    Checksum(Crc32c.Crc(Block(x.extents), 0), |Block(x.extents)|)
  }

  /** One region's share of the journal. */
  datatype Progress = Progress(done: seq<int>, checksums: map<int, Checksum>)

  const NOTHING_DONE := Progress([], map[])

  /** The extent's bytes stand at its planned address. */
  ghost predicate Holds(content: seq<Byte>, e: Extent) {
    e.End() <= |content| && content[e.offset..e.End()] == e.payload
  }

  ghost predicate ItemHolds(content: seq<Byte>, x: Item) {
    forall e :: e in x.extents ==> Holds(content, e)
  }

  /** No byte of the item awaits a sync. */
  ghost predicate ItemDurable(file: Region, x: Item) {
    forall e, a :: e in x.extents && a in file.dirty ==> !Covers(e, a)
  }

  /** A journaled item is written in full, durable, and has a matching checksum. */
  ghost predicate Kept(file: Region, progress: Progress, x: Item) {
    && ItemHolds(file.content, x)
    && ItemDurable(file, x)
    && x.id in progress.checksums
    && progress.checksums[x.id] == ChecksumOf(x)
  }

  /** Bytes outside the planned extents were never written. */
  ghost predicate GapsAreZero(plan: RegionPlan, file: Region) {
    && (forall a :: 0 <= a < |file.content| && !Planned(plan, a) ==> file.content[a] == 0)
    && (forall a :: a in file.dirty ==> Planned(plan, a))
  }

  ghost predicate RegionSafe(plan: RegionPlan, file: Region, progress: Progress) {
    && file.synced <= |file.content| <= plan.total
    && (progress.done != [] ==> file.synced == plan.total)
    && GapsAreZero(plan, file)
    && (forall id :: id in progress.done ==> id in progress.checksums)
    && (forall x :: x in plan.items && x.id in progress.done ==> Kept(file, progress, x))
  }

  lemma NoFileIsSafe(plan: RegionPlan)
    ensures RegionSafe(plan, NO_FILE, NOTHING_DONE)
  {
  }

  lemma PreallocatedIsSafe(plan: RegionPlan, file: Region, progress: Progress)
    requires RegionSafe(plan, file, progress)
    ensures RegionSafe(plan, Preallocated(file, plan.total), progress)
    ensures |Preallocated(file, plan.total).content| == plan.total
  {
    var after := Preallocated(file, plan.total);
    forall x | x in plan.items && x.id in progress.done ensures Kept(after, progress, x) {
      assert Kept(file, progress, x);
      forall e | e in x.extents ensures Holds(after.content, e) {
        assert Holds(file.content, e);
        assert after.content[e.offset..e.End()] == file.content[e.offset..e.End()];
      }
    }
  }

  lemma WrittenHolds(file: Region, e: Extent)
    requires e.End() <= |file.content|
    ensures Holds(Written(file, e).content, e)
    ensures |Written(file, e).content| == |file.content|
  {
  }

  lemma WrittenKeeps(file: Region, e: Extent, f: Extent)
    requires e.End() <= |file.content| && Apart(e, f) && Holds(file.content, f)
    ensures Holds(Written(file, e).content, f)
  {
    assert Written(file, e).content[f.offset..f.End()] == file.content[f.offset..f.End()];
  }

  lemma WrittenKeepsItem(file: Region, progress: Progress, e: Extent, y: Item)
    requires e.End() <= |file.content| && Kept(file, progress, y)
    requires forall f :: f in y.extents ==> Apart(e, f)
    ensures Kept(Written(file, e), progress, y)
  {
    forall f | f in y.extents ensures Holds(Written(file, e).content, f) {
      WrittenKeeps(file, e, f);
    }
  }

  lemma WrittenKeepsGaps(plan: RegionPlan, file: Region, x: Item, e: Extent)
    requires e.End() <= |file.content| && GapsAreZero(plan, file) && x in plan.items && e in x.extents
    ensures GapsAreZero(plan, Written(file, e))
  {
    var after := Written(file, e);
    forall a | 0 <= a < |after.content| && !Planned(plan, a) ensures after.content[a] == 0 {
      assert !Covers(e, a);
      assert after.content[a] == file.content[a];
    }
    forall a | a in after.dirty ensures Planned(plan, a) {
      if a !in file.dirty {
        assert Covers(e, a);
      }
    }
  }

  /** Writing an unjournaled item breaks no promise. */
  lemma WrittenIsSafe(plan: RegionPlan, file: Region, progress: Progress, x: Item, e: Extent)
    requires WellPlanned(plan) && RegionSafe(plan, file, progress)
    requires x in plan.items && e in x.extents && x.id !in progress.done && |file.content| == plan.total
    ensures e.End() <= |file.content|
    ensures RegionSafe(plan, Written(file, e), progress)
  {
    assert InBounds(x, plan.total);
    WrittenKeepsGaps(plan, file, x, e);
    forall y | y in plan.items && y.id in progress.done ensures Kept(Written(file, e), progress, y) {
      assert ItemsApart(x, y);
      WrittenKeepsItem(file, progress, e, y);
    }
  }

  lemma SyncedIsSafe(plan: RegionPlan, file: Region, progress: Progress)
    requires RegionSafe(plan, file, progress) && |file.content| == plan.total
    ensures RegionSafe(plan, Synced(file), progress)
  {
    forall x | x in plan.items && x.id in progress.done ensures Kept(Synced(file), progress, x) {
      assert Kept(file, progress, x);
    }
  }

  function Commit(progress: Progress, x: Item, checksum: Checksum): Progress {
    Progress(progress.done + [x.id], progress.checksums[x.id := checksum])
  }

  /** Journaling an item whose bytes are synced is a promise already kept. */
  lemma CommitIsSafe(plan: RegionPlan, file: Region, progress: Progress, x: Item)
    requires WellPlanned(plan) && RegionSafe(plan, file, progress)
    requires x in plan.items && ItemHolds(file.content, x)
    requires file == Synced(file) && |file.content| == plan.total
    ensures RegionSafe(plan, file, Commit(progress, x, ChecksumOf(x)))
  {
    var after := Commit(progress, x, ChecksumOf(x));
    forall y | y in plan.items && y.id in after.done ensures Kept(file, after, y) {
      if y != x {
        assert y.id != x.id;
        assert Kept(file, progress, y);
      }
    }
  }

  /** `earlier` promises nothing that `later` does not. */
  ghost predicate PartOf(earlier: Progress, later: Progress) {
    && earlier.done <= later.done
    && forall id :: id in earlier.done ==>
      id in earlier.checksums && id in later.checksums && earlier.checksums[id] == later.checksums[id]
  }

  lemma PrefixMembers<T>(a: seq<T>, b: seq<T>, x: T)
    requires a <= b && x in a
    ensures x in b
  {
  }

  /** A crash, even one that also loses the latest journal versions, keeps every promise. */
  lemma CrashIsSafe(plan: RegionPlan, file: Region, progress: Progress, after: Region, earlier: Progress)
    requires RegionSafe(plan, file, progress) && MayBecome(file, after) && PartOf(earlier, progress)
    ensures RegionSafe(plan, after, earlier)
  {
    forall x | x in plan.items && x.id in earlier.done ensures Kept(after, earlier, x) {
      PrefixMembers(earlier.done, progress.done, x.id);
      assert Kept(file, progress, x);
      CrashKeepsItem(file, after, x);
    }
  }

  lemma CrashKeepsItem(file: Region, after: Region, x: Item)
    requires MayBecome(file, after) && file.synced == |file.content| && ItemHolds(file.content, x)
    requires ItemDurable(file, x)
    ensures ItemHolds(after.content, x) && ItemDurable(after, x)
  {
    forall e | e in x.extents ensures Holds(after.content, e) {
      assert Holds(file.content, e);
      forall a | e.offset <= a < e.End() ensures after.content[a] == file.content[a] {
        assert Covers(e, a);
      }
      assert after.content[e.offset..e.End()] == file.content[e.offset..e.End()];
    }
  }

  // ---------------------------------------------------------------- the finished region

  /** The planned bytes and nothing else. */
  ghost predicate IsImage(plan: RegionPlan, content: seq<Byte>) {
    && |content| == plan.total
    && (forall x :: x in plan.items ==> ItemHolds(content, x))
    && (forall a :: 0 <= a < |content| && !Planned(plan, a) ==> content[a] == 0)
  }

  /** The plan leaves no choice: two finished builds of it hold the same bytes. */
  lemma ImageIsUnique(plan: RegionPlan, a: seq<Byte>, b: seq<Byte>)
    requires IsImage(plan, a) && IsImage(plan, b)
    ensures a == b
  {
    forall i | 0 <= i < plan.total ensures a[i] == b[i] {
      if Planned(plan, i) {
        var x, e :| x in plan.items && e in x.extents && Covers(e, i);
        assert Holds(a, e) && Holds(b, e);
        assert a[i] == a[e.offset..e.End()][i - e.offset];
        assert b[i] == b[e.offset..e.End()][i - e.offset];
      }
    }
  }

  ghost predicate AllDone(plan: RegionPlan, progress: Progress) {
    forall x :: x in plan.items ==> x.id in progress.done
  }

  lemma DurableAddress(plan: RegionPlan, file: Region, a: int)
    requires forall x :: x in plan.items ==> ItemDurable(file, x)
    requires Planned(plan, a)
    ensures a !in file.dirty
  {
    var x, e :| x in plan.items && e in x.extents && Covers(e, a);
    assert ItemDurable(file, x);
  }

  /** Once every item is journaled the region is its image, and no crash can change it. */
  lemma AllDoneIsImage(plan: RegionPlan, file: Region, progress: Progress)
    requires WellPlanned(plan) && RegionSafe(plan, file, progress) && AllDone(plan, progress)
    ensures IsImage(plan, file.content) && file.dirty == {}
    ensures forall after :: MayBecome(file, after) ==> after.content == file.content
  {
    if plan.items != [] {
      assert plan.items[0].id in progress.done;
    }
    forall x | x in plan.items ensures ItemHolds(file.content, x) && ItemDurable(file, x) {
      assert Kept(file, progress, x);
    }
    forall a ensures a !in file.dirty {
      if Planned(plan, a) {
        DurableAddress(plan, file, a);
      }
    }
  }
}
