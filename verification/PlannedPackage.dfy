/** The regions of a planned package meet what the resumable writer needs of them. */
module PlannedPackage {
  import opened Collections
  import opened Matrices
  import opened SectionLayout
  import opened BankLayout
  import opened Regions
  import opened PackageWriter
  import PackageValidator

  function Lengths(payloads: seq<seq<Regions.Byte>>): seq<nat> {
    seq(|payloads|, i requires 0 <= i < |payloads| => |payloads[i]|)
  }

  // ---------------------------------------------------------------- regions of one extent per item

  /** Item `i` writes `payloads[i]` at `offset(i)`. */
  function SingleItems(payloads: seq<seq<Regions.Byte>>, offset: nat -> nat): (items: seq<Item>)
    ensures |items| == |payloads|
    ensures forall i :: 0 <= i < |items| ==> items[i] == Item(i, [Extent(offset(i), payloads[i])])
  {
    seq(|payloads|, i requires 0 <= i < |payloads| => Item(i, [Extent(offset(i), payloads[i])]))
  }

  /** Each payload ends before any later one begins. */
  ghost predicate InOrder(payloads: seq<seq<Regions.Byte>>, offset: nat -> nat) {
    forall i: nat, j: nat :: i < j < |payloads| ==> offset(i) + |payloads[i]| <= offset(j)
  }

  function DenseOffsets(payloads: seq<seq<Regions.Byte>>): nat -> nat {
    (i: nat) => if i <= |payloads| then DenseOffset(Lengths(payloads), i) else 0
  }

  function DensePlan(payloads: seq<seq<Regions.Byte>>): RegionPlan {
    RegionPlan(SingleItems(payloads, DenseOffsets(payloads)), DenseOffset(Lengths(payloads), |payloads|), 1)
  }

  lemma DenseIsWellPlanned(payloads: seq<seq<Regions.Byte>>)
    ensures WellPlanned(DensePlan(payloads))
  {
    hide DenseOffset;
    var lengths := Lengths(payloads);
    var offset := DenseOffsets(payloads);
    assert InOrder(payloads, offset) by {
      forall i: nat, j: nat | i < j < |payloads| ensures offset(i) + |payloads[i]| <= offset(j) {
        DenseIsOrdered(lengths, i, j);
      }
    }
    forall i: nat | i < |payloads| ensures offset(i) + |payloads[i]| <= DenseOffset(lengths, |payloads|) {
      DenseIsOrdered(lengths, i, |payloads|);
    }
    NothingDense(lengths);
  }

  lemma NothingDense(lengths: seq<nat>)
    ensures DenseOffset(lengths, 0) == 0
  {
  }

  function ExpertPlan(payloads: seq<seq<Regions.Byte>>, stride: nat): RegionPlan {
    RegionPlan(SingleItems(payloads, (i: nat) => Area(i, stride)), Area(|payloads|, stride), EXPERT_BATCH_ITEMS)
  }

  lemma ExpertsAreWellPlanned(payloads: seq<seq<Regions.Byte>>, payloadBytes: nat, stride: nat)
    requires payloadBytes <= stride && forall i :: 0 <= i < |payloads| ==> |payloads[i]| == payloadBytes
    ensures WellPlanned(ExpertPlan(payloads, stride))
  {
    hide Area;
    var offset := (i: nat) => Area(i, stride);
    assert InOrder(payloads, offset) by {
      forall i: nat, j: nat | i < j < |payloads| ensures offset(i) + |payloads[i]| <= offset(j) {
        RecordsAreApart(stride, payloadBytes, i, j, |payloads|);
      }
    }
    forall i: nat | i < |payloads| ensures offset(i) + |payloads[i]| <= Area(|payloads|, stride) {
      RecordsAreApart(stride, payloadBytes, i, |payloads|, |payloads|);
    }
    assert Area(0, stride) == 0 by {
      NoRecords(stride);
    }
  }

  lemma NoRecords(stride: nat)
    ensures Area(0, stride) == 0
  {
  }

  // ---------------------------------------------------------------- page-packed shards

  /** Rows before shard `s`: the planner's physical cursor. */
  function FirstRow(shards: seq<seq<seq<Regions.Byte>>>, s: nat): nat
    requires s <= |shards|
  {
    if s == 0 then 0 else FirstRow(shards, s - 1) + |shards[s - 1]|
  }

  lemma {:induction false} FirstRowsAreOrdered(shards: seq<seq<seq<Regions.Byte>>>, s: nat, t: nat)
    requires s < t <= |shards|
    ensures FirstRow(shards, s) + |shards[s]| <= FirstRow(shards, t)
    decreases t
  {
    if s < t - 1 {
      FirstRowsAreOrdered(shards, s, t - 1);
    }
  }

  /** One shard: its rows, each at its page-packed place. */
  function ShardItem(row: RowLayout, rows: seq<seq<Regions.Byte>>, shard: nat, firstRow: nat): (x: Item)
    requires row.rowsPerPage > 0
    ensures |x.extents| == |rows| && x.id == shard
    ensures forall r :: 0 <= r < |rows| ==> x.extents[r] == Extent(RowOffset(row, firstRow + r), rows[r])
  {
    Item(shard, seq(|rows|, r requires 0 <= r < |rows| => Extent(RowOffset(row, firstRow + r), rows[r])))
  }

  function PlePlan(row: RowLayout, shards: seq<seq<seq<Regions.Byte>>>): RegionPlan
    requires row.rowsPerPage > 0
  {
    RegionPlan(
      seq(|shards|, s requires 0 <= s < |shards| => ShardItem(row, shards[s], s, FirstRow(shards, s))),
      BytesFor(row, FirstRow(shards, |shards|)), 1)
  }

  ghost predicate RowsFill(row: RowLayout, shards: seq<seq<seq<Regions.Byte>>>) {
    forall s, r :: 0 <= s < |shards| && 0 <= r < |shards[s]| ==> |shards[s][r]| == row.payloadBytes
  }

  lemma ShardsAreApart(row: RowLayout, shards: seq<seq<seq<Regions.Byte>>>, s: nat, t: nat)
    requires IsRowLayout(row) && RowsFill(row, shards) && s < |shards| && t < |shards| && s != t
    ensures ItemsApart(ShardItem(row, shards[s], s, FirstRow(shards, s)),
                       ShardItem(row, shards[t], t, FirstRow(shards, t)))
  {
    hide RowOffset, ShardItem, FirstRow;
    var x := ShardItem(row, shards[s], s, FirstRow(shards, s));
    var y := ShardItem(row, shards[t], t, FirstRow(shards, t));
    if s < t {
      FirstRowsAreOrdered(shards, s, t);
    } else {
      FirstRowsAreOrdered(shards, t, s);
    }
    forall e, f | e in x.extents && f in y.extents ensures Apart(e, f) {
      var i :| 0 <= i < |x.extents| && x.extents[i] == e;
      var j :| 0 <= j < |y.extents| && y.extents[j] == f;
      if s < t {
        RowsAreApart(row, FirstRow(shards, s) + i, FirstRow(shards, t) + j);
      } else {
        RowsAreApart(row, FirstRow(shards, t) + j, FirstRow(shards, s) + i);
      }
    }
  }

  lemma ShardIsPlaced(row: RowLayout, shards: seq<seq<seq<Regions.Byte>>>, s: nat)
    requires IsRowLayout(row) && RowsFill(row, shards) && s < |shards|
    ensures ExtentsApart(ShardItem(row, shards[s], s, FirstRow(shards, s)).extents)
    ensures InBounds(ShardItem(row, shards[s], s, FirstRow(shards, s)), BytesFor(row, FirstRow(shards, |shards|)))
  {
    hide RowOffset, BytesFor, ShardItem, FirstRow;
    var x := ShardItem(row, shards[s], s, FirstRow(shards, s));
    FirstRowsAreOrdered(shards, s, |shards|);
    forall i, j | 0 <= i < j < |x.extents| ensures Apart(x.extents[i], x.extents[j]) {
      RowsAreApart(row, FirstRow(shards, s) + i, FirstRow(shards, s) + j);
    }
    forall e | e in x.extents ensures e.End() <= BytesFor(row, FirstRow(shards, |shards|)) {
      var i :| 0 <= i < |x.extents| && x.extents[i] == e;
      RowInTable(row, FirstRow(shards, s) + i, FirstRow(shards, |shards|));
    }
  }

  lemma PleIsWellPlanned(row: RowLayout, shards: seq<seq<seq<Regions.Byte>>>)
    requires IsRowLayout(row) && RowsFill(row, shards)
    ensures WellPlanned(PlePlan(row, shards))
  {
    hide BytesFor, ShardItem;
    var plan := PlePlan(row, shards);
    TableEnds(row, 0);
    forall s | 0 <= s < |plan.items|
      ensures ExtentsApart(plan.items[s].extents) && InBounds(plan.items[s], plan.total)
    {
      ShardIsPlaced(row, shards, s);
    }
    forall x, y | x in plan.items && y in plan.items && x != y ensures x.id != y.id && ItemsApart(x, y) {
      var s :| 0 <= s < |plan.items| && plan.items[s] == x;
      var t :| 0 <= t < |plan.items| && plan.items[t] == y;
      ShardsAreApart(row, shards, s, t);
    }
  }

  /** A shard that stands as planned gives back each row at its page-packed offset. */
  lemma StandingRowIsRead(content: seq<Regions.Byte>, row: RowLayout, rows: seq<seq<Regions.Byte>>, shard: nat,
                          firstRow: nat, r: nat)
    requires row.rowsPerPage > 0 && r < |rows| && |rows[r]| == row.payloadBytes > 0
    requires ItemHolds(content, ShardItem(row, rows, shard, firstRow))
    ensures Cut(content, RowOffset(row, firstRow + r), row.payloadBytes) == rows[r]
  {
    hide RowOffset;
    assert Regions.Holds(content, ShardItem(row, rows, shard, firstRow).extents[r]);
  }

  // ---------------------------------------------------------------- the package

  /** Whatever is encoded, the planned layout of dense entries, expert records and table rows is
      disjoint and in bounds, so the resumable build's guarantees apply to it. */
  lemma PlannedPackageIsPlan(fingerprint: int, dense: seq<seq<Regions.Byte>>, experts: seq<seq<Regions.Byte>>,
                             payloadBytes: nat, alignment: int, row: RowLayout, shards: seq<seq<seq<Regions.Byte>>>)
    requires forall i :: 0 <= i < |experts| ==> |experts[i]| == payloadBytes
    requires IsRowLayout(row) && RowsFill(row, shards)
    ensures IsPlan(Plan(fingerprint, DensePlan(dense), ExpertPlan(experts, AlignUp(payloadBytes, alignment)),
                        PlePlan(row, shards)))
  {
    hide DensePlan, ExpertPlan, PlePlan, WellPlanned;
    if alignment > 1 {
      AlignUpIsLeast(payloadBytes, alignment);
    }
    DenseIsWellPlanned(dense);
    ExpertsAreWellPlanned(experts, payloadBytes, AlignUp(payloadBytes, alignment));
    PleIsWellPlanned(row, shards);
  }

  // ---------------------------------------------------------------- validation of a finished build

  /** The checksum pass over one region. */
  method ValidateItemChecksums(content: seq<Regions.Byte>, items: seq<Item>, checksums: map<int, Checksum>)
    returns (errors: seq<int>)
    requires forall x :: x in items ==> x.id in checksums
    ensures forall id :: id in errors <==> exists x :: x in items && x.id == id && !Passes(content, x, checksums[x.id])
  {
    errors := [];
    for i := 0 to |items|
      invariant forall id :: id in errors <==>
        exists k :: 0 <= k < i && items[k].id == id && !Passes(content, items[k], checksums[items[k].id])
    {
      var ok := PackageValidator.ValidateItem(content, items[i], checksums[items[i].id]);
      if !ok {
        errors := errors + [items[i].id];
      }
    }
  }

  ghost predicate Passes(content: seq<Regions.Byte>, x: Item, checksum: Checksum) {
    PackageValidator.Readable(content, x.extents) && PackageValidator.WalkOf(content, x.extents) == checksum
  }

  /** Every item of a finished build passes validation, and fails it once up to four consecutive
      bytes of one of its extents are damaged. */
  lemma FinishedBuildValidates(dir: PackageDir, plan: Plan, kind: Kind, x: Item)
    requires dir.Complete(plan) && x in plan.Of(kind).items
    ensures x.id in dir.Standing(plan).Of(kind).checksums
    ensures Passes(dir.files.Of(kind).content, x, dir.Standing(plan).Of(kind).checksums[x.id])
    ensures forall other, k: nat, from: nat, to: nat ::
      k < |x.extents| && ExtentsApart(x.extents) && to <= from + 4
      && PackageValidator.DamagedIn(dir.files.Of(kind).content, other, from, to)
      && x.extents[k].offset <= from && to <= x.extents[k].End() ==>
        !Passes(other, x, dir.Standing(plan).Of(kind).checksums[x.id])
  {
    var content := dir.files.Of(kind).content;
    assert IsImage(plan.Of(kind), content) && ItemHolds(content, x);
    PackageValidator.StandingItemPasses(content, x);
    forall other, k: nat, from: nat, to: nat |
      k < |x.extents| && ExtentsApart(x.extents) && to <= from + 4
      && PackageValidator.DamagedIn(content, other, from, to)
      && x.extents[k].offset <= from && to <= x.extents[k].End()
      ensures !Passes(other, x, dir.Standing(plan).Of(kind).checksums[x.id])
    {
      PackageValidator.DamageIsReported(content, other, x, k, from, to);
    }
  }
}
