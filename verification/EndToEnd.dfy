/** From weights to what the runtime fetches: quantised, written by a finished build, found again at
    its planned place, read and decoded. */
module EndToEnd {
  import opened Collections
  import opened Matrices
  import opened Rtn
  import opened RtnMatrix
  import opened Decode
  import opened SectionLayout
  import opened BankLayout
  import PackageWriter
  import Regions
  import opened PlannedPackage
  import opened PleStore
  import opened ReplacementTheory
  import opened ExpertManager

  /** A matrix of weights and how it is quantised. */
  datatype Source = Source(w: seq<seq<real>>, cols: nat, config: Config) {
    ghost predicate Valid() {
      IsMatrix(w, cols, config) && w != [] && cols > 0
    }

    function Quantised(round: real -> int): Quantized
      requires Valid()
    {
      Quantize(w, cols, config, round)
    }

    function Spans(): Decode.Spans
      requires Valid()
    {
      SectionSpans(|w|, cols, config.bits, GroupWidth(config, cols), config.symmetric)
    }

    /** Scales and zeros survive storage. */
    ghost predicate Stores(round: real -> int, bytesOf: real -> (Byte, Byte), half: (Byte, Byte) -> real)
      requires Valid()
    {
      && StoredExactly(Quantised(round).scales, bytesOf, half)
      && (Quantised(round).zeros.Some? ==> StoredExactly(Quantised(round).zeros.value, bytesOf, half))
    }

    /** What decoding must give. */
    function Dequantised(round: real -> int): (d: seq<seq<real>>)
      requires Valid()
      ensures |d| == |w| && AllLength(d, cols)
    {
      QuantizedHolds(w, cols, config, round);
      Dequantize(Quantised(round), |w|, cols, config)
    }
  }

  /** Every dequantised weight is within half its group's scale of the original, and that scale is the
      step its group's weights span. */
  lemma DequantisedIsClose(source: Source, round: real -> int, r: nat, c: nat)
    requires source.Valid() && IsNearest(round) && r < |source.w| && c < source.cols
    ensures Abs(source.Dequantised(round)[r][c] - source.w[r][c]) <=
      ParamsAt(source.w[r], source.config, round, c).scale / 2.0
    ensures IsNear(source.Dequantised(round)[r][c], source.w[r], source.config, c)
  {
    hide ParamsAt, DequantAt, Quantize, IsNear;
    QuantizedHolds(source.w, source.cols, source.config, round);
    DequantizeAt(source.Quantised(round), |source.w|, source.cols, source.config, r, c);
    QuantizeBound(source.w, source.cols, source.config, round, r, c);
  }

  // ---------------------------------------------------------------- dense tensors

  /** An item of a finished region stands as planned. */
  lemma BuiltItemStands(dir: PackageWriter.PackageDir, plan: PackageWriter.Plan, kind: PackageWriter.Kind, i: nat)
    requires dir.Complete(plan) && i < |plan.Of(kind).items|
    ensures Regions.ItemHolds(dir.files.Of(kind).content, plan.Of(kind).items[i])
  {
    assert Regions.IsImage(plan.Of(kind), dir.files.Of(kind).content);
  }

  /** A dense tensor of a finished build stands at the offset the planner's cursor had reached. */
  lemma BuiltTensorStands(dir: PackageWriter.PackageDir, plan: PackageWriter.Plan, payloads: seq<seq<Byte>>, i: nat)
    requires dir.Complete(plan) && plan.dense == DensePlan(payloads) && i < |payloads|
    ensures Cut(dir.files.dense.content, DenseOffset(Lengths(payloads), i), |payloads[i]|) == payloads[i]
  {
    hide PackageWriter.PackageDir.Complete, DenseOffset;
    BuiltItemStands(dir, plan, PackageWriter.Kind.Dense, i);
    assert Regions.Holds(dir.files.dense.content, plan.dense.items[i].extents[0]);
  }

  // ---------------------------------------------------------------- embedding rows

  /** What the writer may store row by row: whole groups, through the size check, and one code per
      weight whichever row is cut out. */
  ghost predicate IsRowSource(source: Source) {
    && source.Valid() && source.cols % GroupWidth(source.config, source.cols) == 0
    && PassesSizeCheck(|source.w|, source.cols, source.config.bits)
    && RowsStandAlone(|source.w|, source.cols, source.config.bits)
  }

  lemma QuantisedIsShard(source: Source, round: real -> int)
    requires source.Valid() && source.cols % GroupWidth(source.config, source.cols) == 0
    requires PassesSizeCheck(|source.w|, source.cols, source.config.bits)
    ensures IsShard(source.Quantised(round), |source.w|, source.cols, source.config)
  {
    hide Packing.Pack, Packing.PackedLength, Codes, Scales, ZeroPoints, Flatten, PaddedWidth, GroupsPerRow,
         Packing.PerByte;
    var w, cols, config := source.w, source.cols, source.config;
    NoPadding(cols, GroupWidth(config, cols));
    QuantizedHolds(w, cols, config, round);
    SectionsAreNonempty(w, cols, config, round);
  }

  /** One row of the shard as the writer emits it. */
  function EncodedRow(source: Source, round: real -> int, r: nat, bytesOf: real -> (Byte, Byte)): seq<Byte>
    requires IsRowSource(source) && r < |source.w|
  {
    QuantisedIsShard(source, round);
    RowBytes(source.Quantised(round), |source.w|, Packing.PackedLength(source.cols, source.config.bits),
             source.cols / GroupWidth(source.config, source.cols), r, bytesOf)
  }

  function EncodedRows(source: Source, round: real -> int, bytesOf: real -> (Byte, Byte)): (rows: seq<seq<Byte>>)
    requires IsRowSource(source)
    ensures |rows| == |source.w|
  {
    seq(|source.w|, r requires 0 <= r < |source.w| => EncodedRow(source, round, r, bytesOf))
  }

  /** A finished build whose table region holds `shards`. */
  ghost predicate HasTable(dir: PackageWriter.PackageDir, plan: PackageWriter.Plan, row: RowLayout,
                           shards: seq<seq<seq<Byte>>>)
    reads dir
  {
    dir.Complete(plan) && IsRowLayout(row) && RowsFill(row, shards) && plan.ple == PlePlan(row, shards)
  }

  lemma PlannedShard(row: RowLayout, shards: seq<seq<seq<Byte>>>, s: nat)
    requires row.rowsPerPage > 0 && s < |shards|
    ensures |PlePlan(row, shards).items| == |shards|
    ensures PlePlan(row, shards).items[s] == ShardItem(row, shards[s], s, FirstRow(shards, s))
  {
  }

  lemma BuiltRowStands(dir: PackageWriter.PackageDir, plan: PackageWriter.Plan, row: RowLayout,
                       shards: seq<seq<seq<Byte>>>, s: nat, r: nat)
    requires HasTable(dir, plan, row, shards) && s < |shards| && r < |shards[s]|
    ensures Cut(dir.files.ple.content, RowOffset(row, FirstRow(shards, s) + r), row.payloadBytes) == shards[s][r]
    ensures dir.files.ple.content != []
  {
    hide RowOffset, PlePlan, ShardItem, FirstRow, PackageWriter.PackageDir.Complete, Regions.ItemHolds;
    PlannedShard(row, shards, s);
    BuiltItemStands(dir, plan, PackageWriter.Kind.Ple, s);
    StandingRowIsRead(dir.files.ple.content, row, shards[s], s, FirstRow(shards, s), r);
  }

  /** The store reads the finished table with the settings its shards were written with. */
  ghost predicate ReadsTable(store: PleRowStore, dir: PackageWriter.PackageDir, row: RowLayout, source: Source,
                             half: (Byte, Byte) -> real)
    reads dir
  {
    && store.table == dir.files.ple.content && store.row == row && store.half == half
    && store.width == source.cols && store.config == source.config
  }

  /** Reading row `r` of shard `s` through the store gives the dequantised row. */
  lemma BuiltRowIsRead(dir: PackageWriter.PackageDir, plan: PackageWriter.Plan, row: RowLayout,
                       shards: seq<seq<seq<Byte>>>, store: PleRowStore, source: Source, round: real -> int,
                       bytesOf: real -> (Byte, Byte), half: (Byte, Byte) -> real, s: nat, r: nat, id: int)
    requires HasTable(dir, plan, row, shards) && ReadsTable(store, dir, row, source, half)
    requires IsRowSource(source) && source.Stores(round, bytesOf, half)
    requires s < |shards| && r < |source.w| && shards[s] == EncodedRows(source, round, bytesOf)
    requires store.PhysicalOf(id) == Some(FirstRow(shards, s) + r)
    ensures store.row.rowsPerPage > 0 && store.Direct(id) == Some(source.Dequantised(round)[r])
  {
    hide RowOffset, RowBytes, PackageWriter.PackageDir.Complete, PlePlan, RowsFill, Dequantize, Quantize,
         Packing.PackedLength, PleRowStore.Direct, IsShard,
         RowsStandAlone, PassesSizeCheck;
    BuiltRowStands(dir, plan, row, shards, s, r);
    QuantisedIsShard(source, round);
    QuantizedHolds(source.w, source.cols, source.config, round);
    store.StoredRowIsFetched(source.Quantised(round), |source.w|, r, id, bytesOf);
  }

  /** Fetching an embedding row from a finished package: whatever the cache holds, the dequantised row,
      each weight within half its group's scale of the one it was built from. It fails only for a row
      that is not cached in a cache without room. */
  method FetchBuiltRow(ghost dir: PackageWriter.PackageDir, ghost plan: PackageWriter.Plan, ghost row: RowLayout,
                       ghost shards: seq<seq<seq<Byte>>>, store: PleRowStore, ghost source: Source,
                       ghost round: real -> int, ghost bytesOf: real -> (Byte, Byte), ghost half: (Byte, Byte) -> real,
                       ghost s: nat, ghost r: nat, id: int)
    returns (fetched: Option<seq<real>>)
    requires HasTable(dir, plan, row, shards) && ReadsTable(store, dir, row, source, half) && store.Valid()
    requires IsRowSource(source) && source.Stores(round, bytesOf, half) && IsNearest(round)
    requires s < |shards| && r < |source.w| && shards[s] == EncodedRows(source, round, bytesOf)
    requires store.PhysicalOf(id) == Some(FirstRow(shards, s) + r)
    modifies store
    ensures store.Valid()
    ensures fetched.None? <==> id !in old(store.rows) && store.capacity <= 0
    ensures fetched.Some? ==> fetched.value == source.Dequantised(round)[r] && |fetched.value| == source.cols
    ensures fetched.Some? ==> forall c: nat :: c < source.cols ==>
      && Abs(fetched.value[c] - source.w[r][c]) <= ParamsAt(source.w[r], source.config, round, c).scale / 2.0
      && IsNear(fetched.value[c], source.w[r], source.config, c)
  {
    hide PackageWriter.PackageDir.Complete, PlePlan, RowsFill, PassesSizeCheck, RowsStandAlone, PleRowStore.Direct,
         ParamsAt, EncodedRows, Source.Stores, Source.Dequantised, IsNearest, IsNear;
    BuiltRowIsRead(dir, plan, row, shards, store, source, round, bytesOf, half, s, r, id);
    forall c: nat | c < source.cols
      ensures Abs(source.Dequantised(round)[r][c] - source.w[r][c]) <=
        ParamsAt(source.w[r], source.config, round, c).scale / 2.0
      ensures IsNear(source.Dequantised(round)[r][c], source.w[r], source.config, c)
    {
      DequantisedIsClose(source, round, r, c);
    }
    fetched := store.FetchRow(id);
  }

  // ---------------------------------------------------------------- experts

  /** Every weight is within half its group's scale, the step its group's weights span, of the one that
      was packed. */
  ghost predicate IsClose(source: Source, rows: seq<seq<real>>, round: real -> int)
    requires source.Valid() && |rows| == |source.w| && AllLength(rows, source.cols)
  {
    forall r: nat, c: nat :: r < |rows| && c < source.cols ==>
      && Abs(rows[r][c] - source.w[r][c]) <= ParamsAt(source.w[r], source.config, round, c).scale / 2.0
      && IsNear(rows[r][c], source.w[r], source.config, c)
  }

  lemma DequantisedMatrixIsClose(source: Source, round: real -> int)
    requires source.Valid() && IsNearest(round)
    ensures IsClose(source, source.Dequantised(round), round)
  {
    hide ParamsAt, Source.Dequantised, IsNearest, IsNear;
    var rows := source.Dequantised(round);
    forall r: nat, c: nat | r < |rows| && c < source.cols
      ensures Abs(rows[r][c] - source.w[r][c]) <= ParamsAt(source.w[r], source.config, round, c).scale / 2.0
      ensures IsNear(rows[r][c], source.w[r], source.config, c)
    {
      DequantisedIsClose(source, round, r, c);
    }
  }

  /** The two projections of an expert. */
  datatype ExpertSource = ExpertSource(gateUp: Source, down: Source) {
    ghost predicate Valid() {
      gateUp.Valid() && down.Valid()
    }

    ghost predicate Stores(round: real -> int, bytesOf: real -> (Byte, Byte), half: (Byte, Byte) -> real)
      requires Valid()
    {
      gateUp.Stores(round, bytesOf, half) && down.Stores(round, bytesOf, half)
    }
  }

  /** One projection as the writer emits it. */
  function Emitted(source: Source, round: real -> int, bytesOf: real -> (Byte, Byte)): (bytes: seq<Byte>)
    requires source.Valid()
    ensures |bytes| == PayloadBytes(source.Spans())
  {
    PlannedIsEmitted(source.w, source.cols, source.config, round, bytesOf);
    SectionsToBytes(source.Quantised(round), source.Spans(), bytesOf).value
  }

  /** `_encode_expert`: the projections one after another. */
  function EncodedExpert(expert: ExpertSource, round: real -> int, bytesOf: real -> (Byte, Byte)): seq<Byte>
    requires expert.Valid()
  {
    Emitted(expert.gateUp, round, bytesOf) + Emitted(expert.down, round, bytesOf)
  }

  type DecodedExpert = (Decode.Decoded, Decode.Decoded)

  function DecodeProjection(raw: seq<Byte>, like: Source, base: nat, half: (Byte, Byte) -> real): Decode.Decoded
    requires like.Valid()
  {
    DecodeRecord(raw, [|like.w|, like.cols], like.config.bits, like.config.groupSize, like.config.symmetric,
                 like.Spans(), base, half)
  }

  /** `decode_expert_payload`, for records shaped like `like`: each projection from its planned offset. */
  function DecodeExpert(raw: seq<Byte>, like: ExpertSource, half: (Byte, Byte) -> real): DecodedExpert
    requires like.Valid()
  {
    (DecodeProjection(raw, like.gateUp, 0, half),
     DecodeProjection(raw, like.down, PayloadBytes(like.gateUp.Spans()), half))
  }

  /** The same shapes and precision, whatever the weights. */
  ghost predicate IsLike(a: Source, b: Source) {
    |a.w| == |b.w| && a.cols == b.cols && a.config == b.config
  }

  lemma ProjectionRoundTrip(before: seq<Byte>, source: Source, after: seq<Byte>, like: Source, round: real -> int,
                            bytesOf: real -> (Byte, Byte), half: (Byte, Byte) -> real)
    requires source.Valid() && like.Valid() && IsLike(source, like) && source.Stores(round, bytesOf, half)
    ensures DecodeProjection(before + Emitted(source, round, bytesOf) + after, like, |before|, half)
      == Decode.Ok(source.Dequantised(round))
  {
    hide DecodeRecord, SectionsToBytes, SectionSpans, Quantize, Dequantize;
    RecordRoundTrip(before, source.w, source.cols, source.config, round, after, bytesOf, half);
  }

  /** An expert's record is the fused gate and up projection and then the down projection, and decodes to
      their dequantised forms. */
  lemma ExpertRoundTrip(expert: ExpertSource, like: ExpertSource, round: real -> int, bytesOf: real -> (Byte, Byte),
                        half: (Byte, Byte) -> real)
    requires expert.Valid() && like.Valid() && IsLike(expert.gateUp, like.gateUp) && IsLike(expert.down, like.down)
    requires expert.Stores(round, bytesOf, half)
    ensures DecodeExpert(EncodedExpert(expert, round, bytesOf), like, half)
      == (Decode.Ok(expert.gateUp.Dequantised(round)), Decode.Ok(expert.down.Dequantised(round)))
    ensures
      var record, first := EncodedExpert(expert, round, bytesOf), Emitted(expert.gateUp, round, bytesOf);
      first <= record && record[|first|..] == Emitted(expert.down, round, bytesOf)
  {
    hide DecodeProjection, Emitted, Source.Dequantised, Source.Stores;
    var a, b := Emitted(expert.gateUp, round, bytesOf), Emitted(expert.down, round, bytesOf);
    ProjectionRoundTrip([], expert.gateUp, b, like.gateUp, round, bytesOf, half);
    ProjectionRoundTrip(a, expert.down, [], like.down, round, bytesOf, half);
    assert [] + a + b == EncodedExpert(expert, round, bytesOf) == a + b + [];
  }

  function RecordBytes(like: ExpertSource): nat
    requires like.Valid()
  {
    PayloadBytes(like.gateUp.Spans()) + PayloadBytes(like.down.Spans())
  }

  /** `byte_range`: the slot's place in the bank and the payload's length. */
  function BankRange(layers: seq<int>, numExperts: nat, stride: nat, like: ExpertSource, key: Key): Option<(nat, nat)>
    requires like.Valid()
  {
    match RecordIndex(layers, numExperts, key.0, key.1)
    case None => None
    case Some(i) => Some((Area(i, stride), RecordBytes(like)))
  }

  /** A finished build whose bank holds `experts`, all shaped like `like`, in slot order. */
  ghost predicate HasBank(dir: PackageWriter.PackageDir, plan: PackageWriter.Plan, experts: seq<ExpertSource>,
                          like: ExpertSource, stride: nat, round: real -> int, bytesOf: real -> (Byte, Byte))
    reads dir
  {
    && like.Valid() && (forall i :: 0 <= i < |experts| ==> AreLike(experts[i], like))
    && dir.Complete(plan) && plan.experts == ExpertPlan(EncodedExperts(experts, round, bytesOf), stride)
  }

  ghost predicate AreLike(expert: ExpertSource, like: ExpertSource) {
    expert.Valid() && IsLike(expert.gateUp, like.gateUp) && IsLike(expert.down, like.down)
  }

  function EncodedExperts(experts: seq<ExpertSource>, round: real -> int, bytesOf: real -> (Byte, Byte))
    : (records: seq<seq<Byte>>)
    requires forall i :: 0 <= i < |experts| ==> experts[i].Valid()
    ensures |records| == |experts|
    ensures forall i :: 0 <= i < |experts| ==> records[i] == EncodedExpert(experts[i], round, bytesOf)
  {
    seq(|experts|, i requires 0 <= i < |experts| => EncodedExpert(experts[i], round, bytesOf))
  }

  lemma RecordFillsRange(expert: ExpertSource, like: ExpertSource, round: real -> int, bytesOf: real -> (Byte, Byte))
    requires like.Valid() && AreLike(expert, like)
    ensures |EncodedExpert(expert, round, bytesOf)| == RecordBytes(like) > 0
  {
    hide Packing.Pack, SectionSpans, Quantize;
    var source := expert.gateUp;
    assert source.Spans() == like.gateUp.Spans() && expert.down.Spans() == like.down.Spans();
    SectionsAreNonempty(source.w, source.cols, source.config, round);
    PlannedIsEmitted(source.w, source.cols, source.config, round, bytesOf);
  }

  lemma PlannedRecord(records: seq<seq<Byte>>, stride: nat, i: nat)
    requires i < |records|
    ensures |ExpertPlan(records, stride).items| == |records|
    ensures ExpertPlan(records, stride).items[i] == Regions.Item(i, [Regions.Extent(Area(i, stride), records[i])])
  {
  }

  lemma BuiltRecordStands(dir: PackageWriter.PackageDir, plan: PackageWriter.Plan, records: seq<seq<Byte>>, stride: nat,
                          i: nat)
    requires dir.Complete(plan) && plan.experts == ExpertPlan(records, stride) && i < |records| && records[i] != []
    ensures Cut(dir.files.experts.content, Area(i, stride), |records[i]|) == records[i]
    ensures dir.files.experts.content != []
  {
    hide PackageWriter.PackageDir.Complete, ExpertPlan, Area;
    PlannedRecord(records, stride, i);
    BuiltItemStands(dir, plan, PackageWriter.Kind.Experts, i);
    assert Regions.Holds(dir.files.experts.content, plan.experts.items[i].extents[0]);
  }

  /** The manager opens the finished bank with the layout it was planned with. */
  ghost predicate ReadsBank(manager: ExpertManager<DecodedExpert>, dir: PackageWriter.PackageDir, layers: seq<int>,
                            numExperts: nat, stride: nat, like: ExpertSource, half: (Byte, Byte) -> real)
    requires like.Valid()
    reads dir
  {
    && manager.bank == dir.files.experts.content
    && (forall key :: manager.byteRange(key) == BankRange(layers, numExperts, stride, like, key))
    && forall raw :: manager.decode(raw) == DecodeExpert(raw, like, half)
  }

  /** What the manager reads for an expert decodes to its dequantised projections. */
  lemma BuiltExpertIsDirect(dir: PackageWriter.PackageDir, plan: PackageWriter.Plan, experts: seq<ExpertSource>,
                            like: ExpertSource, manager: ExpertManager<DecodedExpert>, layers: seq<int>,
                            numExperts: nat, stride: nat, round: real -> int, bytesOf: real -> (Byte, Byte),
                            half: (Byte, Byte) -> real, key: Key, i: nat)
    requires HasBank(dir, plan, experts, like, stride, round, bytesOf) && i < |experts|
    requires ReadsBank(manager, dir, layers, numExperts, stride, like, half)
    requires RecordIndex(layers, numExperts, key.0, key.1) == Some(i) && experts[i].Stores(round, bytesOf, half)
    ensures manager.CanRead(key)
    ensures manager.Direct(key)
      == (Decode.Ok(experts[i].gateUp.Dequantised(round)), Decode.Ok(experts[i].down.Dequantised(round)))
  {
    hide PackageWriter.PackageDir.Complete, ExpertPlan, Area, RecordIndex, DecodeExpert, EncodedExpert,
         Source.Dequantised, Source.Stores, RecordBytes, Cut;
    assert AreLike(experts[i], like);
    RecordFillsRange(experts[i], like, round, bytesOf);
    BuiltRecordStands(dir, plan, EncodedExperts(experts, round, bytesOf), stride, i);
    ExpertRoundTrip(experts[i], like, round, bytesOf, half);
    assert manager.byteRange(key) == BankRange(layers, numExperts, stride, like, key);
  }

  /** Fetching an expert of a finished package: from whichever tier, its two dequantised projections,
      each within half a scale of what was packed. It fails only by the cache's own key error. */
  method FetchBuiltExpert(ghost dir: PackageWriter.PackageDir, ghost plan: PackageWriter.Plan,
                          ghost experts: seq<ExpertSource>, ghost like: ExpertSource,
                          manager: ExpertManager<DecodedExpert>, ghost layers: seq<int>, ghost numExperts: nat,
                          ghost stride: nat, ghost round: real -> int, ghost bytesOf: real -> (Byte, Byte),
                          ghost half: (Byte, Byte) -> real, key: Key, ghost i: nat)
    returns (fetched: Fetch<DecodedExpert>)
    requires HasBank(dir, plan, experts, like, stride, round, bytesOf) && i < |experts| && manager.Valid()
    requires ReadsBank(manager, dir, layers, numExperts, stride, like, half)
    requires RecordIndex(layers, numExperts, key.0, key.1) == Some(i) && experts[i].Stores(round, bytesOf, half)
    modifies manager`hotTier, manager`frequency, manager.ramCache
    ensures manager.Valid() && experts[i].Valid() && !fetched.Unreadable?
    ensures fetched.CacheError? ==> manager.ramCache.protectedCapacity == 0
    ensures fetched.Expert? ==>
      fetched.value == (Decode.Ok(experts[i].gateUp.Dequantised(round)), Decode.Ok(experts[i].down.Dequantised(round)))
    ensures IsNearest(round) ==>
      && IsClose(experts[i].gateUp, experts[i].gateUp.Dequantised(round), round)
      && IsClose(experts[i].down, experts[i].down.Dequantised(round), round)
  {
    hide PackageWriter.PackageDir.Complete, ExpertPlan, ExpertManager.Valid, IsClose, IsNearest,
         Source.Dequantised, Source.Stores, RecordIndex;
    BuiltExpertIsDirect(dir, plan, experts, like, manager, layers, numExperts, stride, round, bytesOf, half, key, i);
    assert AreLike(experts[i], like);
    if IsNearest(round) {
      DequantisedMatrixIsClose(experts[i].gateUp, round);
      DequantisedMatrixIsClose(experts[i].down, round);
    }
    fetched := manager.FetchExpert(key);
  }
}
