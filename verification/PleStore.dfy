/** Page-packed embedding rows: how a shard is written, and how a row is fetched. */
module PleStore {
  import opened Collections
  import opened Matrices
  import opened Packing
  import opened Rtn
  import opened RtnMatrix
  import opened Decode
  import opened SectionLayout
  import opened BankLayout
  import opened PleIndex

  // ---------------------------------------------------------------- one shard, row by row

  /** Row `r` of a shard's sections, as the writer's reshape cuts it. */
  function RowSlice(q: Quantized, stride: nat, groups: nat, r: nat): Quantized
    requires Area(r, stride) <= Area(r + 1, stride) <= |q.packed|
    requires Area(r, groups) <= Area(r + 1, groups) <= |q.scales|
    requires q.zeros.Some? ==> Area(r + 1, groups) <= |q.zeros.value|
  {
    Quantized(q.packed[Area(r, stride)..Area(r + 1, stride)], q.scales[Area(r, groups)..Area(r + 1, groups)],
              if q.zeros.Some? then Some(q.zeros.value[Area(r, groups)..Area(r + 1, groups)]) else None)
  }

  /** The sections reshape into `rows` rows: what `_encode_ple_shard` checks. */
  predicate Reshapes(q: Quantized, rows: nat, stride: nat, groups: nat) {
    && |q.packed| == Area(rows, stride) && |q.scales| == Area(rows, groups)
    && (q.zeros.Some? ==> |q.zeros.value| == Area(rows, groups))
  }

  lemma RowInSections(rows: nat, n: nat, r: nat)
    requires r < rows
    ensures Area(r, n) <= Area(r + 1, n) <= Area(rows, n) && Area(r + 1, n) == Area(r, n) + n
  {
    MulMonotone(r + 1, rows, n);
    assert (r + 1) * n == r * n + n;
  }

  /** Each row with its own codes, scales and zeros. */
  function RowBytes(q: Quantized, rows: nat, stride: nat, groups: nat, r: nat, bytesOf: real -> (Byte, Byte)): seq<Byte>
    requires Reshapes(q, rows, stride, groups) && r < rows
  {
    RowInSections(rows, stride, r);
    RowInSections(rows, groups, r);
    var part := RowSlice(q, stride, groups, r);
    part.packed + HalfBytes(part.scales, bytesOf)
    + if part.zeros.Some? then HalfBytes(part.zeros.value, bytesOf) else []
  }

  /** A row's bytes are its own codes, then its scales, then its zero points. */
  lemma RowBytesInOrder(q: Quantized, rows: nat, stride: nat, groups: nat, r: nat, bytesOf: real -> (Byte, Byte))
    requires Reshapes(q, rows, stride, groups) && r < rows
    ensures Area(r, stride) + stride <= |q.packed| && Area(r, groups) + groups <= |q.scales|
    ensures
      var raw := RowBytes(q, rows, stride, groups, r, bytesOf);
      && q.packed[Area(r, stride)..Area(r, stride) + stride] <= raw
      && HalvesStand(raw, stride, q.scales[Area(r, groups)..Area(r, groups) + groups], bytesOf)
      && |raw| == stride + 2 * groups * (if q.zeros.Some? then 2 else 1)
    ensures q.zeros.Some? ==>
      && Area(r, groups) + groups <= |q.zeros.value|
      && HalvesStand(RowBytes(q, rows, stride, groups, r, bytesOf), stride + 2 * groups,
                     q.zeros.value[Area(r, groups)..Area(r, groups) + groups], bytesOf)
  {
    hide HalfBytes, HalvesStand;
    RowInSections(rows, stride, r);
    RowInSections(rows, groups, r);
    var part := RowSlice(q, stride, groups, r);
    var zeros := if part.zeros.Some? then HalfBytes(part.zeros.value, bytesOf) else [];
    HalvesStandBetween(part.packed, part.scales, zeros, bytesOf);
    if part.zeros.Some? {
      HalvesStandBetween(part.packed + HalfBytes(part.scales, bytesOf), part.zeros.value, [], bytesOf);
      assert part.packed + HalfBytes(part.scales, bytesOf) + zeros + []
        == RowBytes(q, rows, stride, groups, r, bytesOf);
    }
  }

  /** Room between the end of a row and the next byte boundary, in codes. */
  function Slack(width: nat, bits: int): nat
    requires IsWidth(bits)
  {
    PackedCovers(width, bits);
    Area(PackedLength(width, bits), PerByte(bits)) - width
  }

  lemma PackedLengthIs(n: nat, bits: int, k: nat)
    requires IsWidth(bits)
    ensures PackedLength(n, bits) == k <==> Area(k, PerByte(bits)) < n + PerByte(bits) && n <= Area(k, PerByte(bits))
  {
    var per := PerByte(bits);
    PackedCovers(n, bits);
    Multiples(PackedLength(n, bits) - k, per);
    assert (PackedLength(n, bits) - k) * per == PackedLength(n, bits) * per - k * per;
  }

  /** What `_encode_ple_shard` checks of the packed section's size. */
  predicate PassesSizeCheck(rows: nat, width: nat, bits: int)
    requires IsWidth(bits)
  {
    PackedLength(Area(rows, width), bits) == Area(rows, PackedLength(width, bits))
  }

  /** The writer's size check passes exactly when the rows' slack adds up to less than a byte. */
  lemma SizeCheckPasses(rows: nat, width: nat, bits: int)
    requires IsWidth(bits)
    ensures PassesSizeCheck(rows, width, bits) <==> Area(rows, Slack(width, bits)) < PerByte(bits)
  {
    hide PackedLength, PerByte;
    var stride, per := PackedLength(width, bits), PerByte(bits);
    PackedCovers(width, bits);
    PackedLengthIs(Area(rows, width), bits, Area(rows, stride));
    AreaOfArea(rows, stride, per);
    var slack := Slack(width, bits);
    assert Area(stride, per) == width + slack;
    assert rows * (width + slack) == rows * width + rows * slack;
  }

  /** The bytes cut out for row `r`. */
  function RowCut(packed: seq<Byte>, stride: nat, rows: nat, r: nat): (cut: seq<Byte>)
    requires |packed| == Area(rows, stride) && r < rows
    ensures |cut| == stride
  {
    RowInSections(rows, stride, r);
    packed[Area(r, stride)..Area(r + 1, stride)]
  }

  /** What row `r`, column `c` reads: `r` times the slack past its own code. */
  lemma RowReadsShifted(packed: seq<Byte>, rows: nat, width: nat, bits: int, r: nat, c: nat)
    requires IsWidth(bits) && |packed| == Area(rows, PackedLength(width, bits)) && r < rows && c < width
    ensures
      var cut := RowCut(packed, PackedLength(width, bits), rows, r);
      && c / PerByte(bits) < |cut|
      && (FlatIndex(r, width, c) + Area(r, Slack(width, bits))) / PerByte(bits) < |packed|
      && CodeOf(cut, bits, c) == CodeOf(packed, bits, FlatIndex(r, width, c) + Area(r, Slack(width, bits)))
  {
    hide PackedLength, PerByte, CodeOf;
    var stride, per := PackedLength(width, bits), PerByte(bits);
    RowInSections(rows, stride, r);
    PackedCovers(width, bits);
    CodeOfSlice(packed, bits, Area(r, stride), Area(r + 1, stride), c);
    AreaOfArea(r, stride, per);
    assert r * (width + Slack(width, bits)) == r * width + r * Slack(width, bits);
  }

  /** Row `r`, cut from the packed codes of the whole shard, unpacks to its own codes. */
  ghost predicate RowReadsOwn(codes: seq<bv8>, rows: nat, width: nat, bits: int, r: nat)
    requires IsWidth(bits) && PassesSizeCheck(rows, width, bits) && |codes| == Area(rows, width) && r < rows
  {
    PackedCovers(width, bits);
    RowInSections(rows, width, r);
    Unpack(RowCut(Pack(codes, bits), PackedLength(width, bits), rows, r), bits, width)
      == codes[Area(r, width)..Area(r + 1, width)]
  }

  /** So it does whatever the codes are. */
  ghost predicate RowsReadOwn(rows: nat, width: nat, bits: int)
    requires IsWidth(bits) && PassesSizeCheck(rows, width, bits)
  {
    forall codes, r: nat :: AreCodes(codes, bits) && |codes| == Area(rows, width) && r < rows ==>
      RowReadsOwn(codes, rows, width, bits, r)
  }

  /** Rows start on byte boundaries, or there is only one. */
  predicate RowsStandAlone(rows: nat, width: nat, bits: int)
    requires IsWidth(bits)
  {
    Slack(width, bits) == 0 || rows <= 1
  }

  lemma AloneReadsOwn(codes: seq<bv8>, rows: nat, width: nat, bits: int, r: nat)
    requires IsWidth(bits) && PassesSizeCheck(rows, width, bits) && RowsStandAlone(rows, width, bits)
    requires AreCodes(codes, bits) && |codes| == Area(rows, width) && r < rows
    ensures RowReadsOwn(codes, rows, width, bits, r)
  {
    hide PackedLength, PerByte, CodeOf, Slack, Pack, RowCut;
    var packed := Pack(codes, bits);
    PackedByteFields(codes, bits);
    PackedCovers(width, bits);
    RowInSections(rows, width, r);
    var cut := RowCut(packed, PackedLength(width, bits), rows, r);
    forall c | 0 <= c < width ensures Unpack(cut, bits, width)[c] == codes[Area(r, width)..Area(r + 1, width)][c] {
      RowReadsShifted(packed, rows, width, bits, r, c);
      PackedCode(codes, bits, FlatIndex(r, width, c));
    }
  }

  /** All codes zero but the first of row 1. */
  function LoneCode(n: nat, width: nat): (codes: seq<bv8>)
    ensures |codes| == n
  {
    seq(n, j requires 0 <= j < n => if j == width then 1 else 0)
  }

  lemma LoneIsCode(n: nat, width: nat, bits: int)
    requires IsWidth(bits)
    ensures AreCodes(LoneCode(n, width), bits)
  {
  }

  /** In a shard with slack, the row after the first misses its first code. */
  lemma LoneCodeIsMissed(rows: nat, width: nat, bits: int)
    requires IsWidth(bits) && PassesSizeCheck(rows, width, bits) && width > 0
    requires rows >= 2 && Slack(width, bits) > 0
    ensures
      var packed := Pack(LoneCode(Area(rows, width), width), bits);
      var cut := RowCut(packed, PackedLength(width, bits), rows, 1);
      && 0 / PerByte(bits) < |cut| && width / PerByte(bits) < |packed|
      && CodeOf(cut, bits, 0) == 0 && CodeOf(packed, bits, width) == 1
  {
    hide PackedLength, PerByte, CodeOf, Slack, Pack, RowCut;
    var codes := LoneCode(Area(rows, width), width);
    PackedByteFields(codes, bits);
    LoneIsCode(Area(rows, width), width, bits);
    RowInSections(rows, width, 1);
    RowReadsShifted(Pack(codes, bits), rows, width, bits, 1, 0);
    PackedField(codes, bits, width + Slack(width, bits));
    PackedCode(codes, bits, width);
  }

  /** Of the shards that pass the size check, those and only those with no slack, or a single row,
      give every row its own codes. */
  lemma RowsReadOwnIff(rows: nat, width: nat, bits: int)
    requires IsWidth(bits) && PassesSizeCheck(rows, width, bits) && width > 0
    ensures RowsReadOwn(rows, width, bits) <==> RowsStandAlone(rows, width, bits)
  {
    hide PackedLength, PerByte, CodeOf, Slack, Pack, RowCut, RowReadsOwn, LoneCode;
    if RowsStandAlone(rows, width, bits) {
      forall codes, r: nat | AreCodes(codes, bits) && |codes| == Area(rows, width) && r < rows
        ensures RowReadsOwn(codes, rows, width, bits, r)
      {
        AloneReadsOwn(codes, rows, width, bits, r);
      }
    } else {
      LoneIsCode(Area(rows, width), width, bits);
      LoneCodeBreaksRow(rows, width, bits);
    }
  }

  lemma LoneCodeBreaksRow(rows: nat, width: nat, bits: int)
    requires IsWidth(bits) && PassesSizeCheck(rows, width, bits) && width > 0
    requires rows >= 2 && Slack(width, bits) > 0
    ensures !RowReadsOwn(LoneCode(Area(rows, width), width), rows, width, bits, 1)
  {
    hide PackedLength, PerByte, CodeOf, Slack, Pack, RowCut;
    var codes := LoneCode(Area(rows, width), width);
    LoneCodeIsMissed(rows, width, bits);
    PackedByteFields(codes, bits);
    PackedCovers(width, bits);
    RowInSections(rows, width, 1);
    var read := Unpack(RowCut(Pack(codes, bits), PackedLength(width, bits), rows, 1), bits, width);
    assert read[0] == 0 && codes[Area(1, width)..Area(2, width)][0] == 1;
  }

  /** Two rows of three 2-bit codes pass the size check, and row 1 starts with its second code. */
  lemma MisreadRow(codes: seq<bv8>)
    requires AreCodes(codes, 2) && |codes| == Area(2, 3)
    ensures PassesSizeCheck(2, 3, 2) && |Pack(codes, 2)| == Area(2, PackedLength(3, 2))
    ensures CodeOf(RowCut(Pack(codes, 2), PackedLength(3, 2), 2, 1), 2, 0) == codes[4]
  {
    RowReadsShifted(Pack(codes, 2), 2, 3, 2, 1, 0);
    PackedCode(codes, 2, 4);
  }

  // ---------------------------------------------------------------- a row decodes

  lemma DimsOfRow(width: nat)
    ensures MatrixDims([width]) == (1, width)
  {
    assert [width][..0] == [];
  }

  /** The spans of one row on its own. */
  lemma RowSpans(width: nat, config: Config)
    requires IsConfig(config, width) && width % GroupWidth(config, width) == 0
    ensures
      var groups := width / GroupWidth(config, width);
      var stride := PackedLength(width, config.bits);
      SectionSpans(1, width, config.bits, GroupWidth(config, width), config.symmetric)
        == Spans(Some(Span(0, stride)), Some(Span(stride, groups * 2)),
                 if config.symmetric then None else Some(Span(stride + groups * 2, groups * 2)))
  {
    hide PackedBytes, PackedLength, GroupsPerRow, PaddedWidth;
    NoPadding(width, GroupWidth(config, width));
    PackedBytesIsLength(width, config.bits);
    assert Area(1, width) == width && Area(1, width / GroupWidth(config, width)) == width / GroupWidth(config, width);
  }

  lemma SlicesStoredExactly(values: seq<real>, from: nat, to: nat, bytesOf: real -> (Byte, Byte),
                            half: (Byte, Byte) -> real)
    requires from <= to <= |values| && StoredExactly(values, bytesOf, half)
    ensures StoredExactly(values[from..to], bytesOf, half)
  {
  }

  lemma RowIsReshaped(q: Quantized, rows: nat, width: nat, config: Config, r: nat)
    requires IsConfig(config, width) && width % GroupWidth(config, width) == 0
    requires Reshapes(q, rows, PackedLength(width, config.bits), width / GroupWidth(config, width)) && r < rows
    ensures
      var stride, groups := PackedLength(width, config.bits), width / GroupWidth(config, width);
      && Area(r, stride) <= Area(r + 1, stride) <= |q.packed| && Area(r, groups) <= Area(r + 1, groups) <= |q.scales|
      && Holds(q, rows, width, config)
      && Holds(RowSlice(q, stride, groups, r), 1, width, config)
      && |RowSlice(q, stride, groups, r).packed| == stride && |RowSlice(q, stride, groups, r).scales| == groups
      && (q.zeros.Some? ==> |RowSlice(q, stride, groups, r).zeros.value| == groups)
  {
    hide PackedLength, PerByte, GroupsPerRow, PaddedWidth;
    var stride, groups := PackedLength(width, config.bits), width / GroupWidth(config, width);
    RowInSections(rows, stride, r);
    RowInSections(rows, groups, r);
    NoPadding(width, GroupWidth(config, width));
    PackedCovers(width, config.bits);
    AreaOfArea(rows, stride, PerByte(config.bits));
    MulNested(rows, width, Area(stride, PerByte(config.bits)));
    assert Area(1, width) == width && Area(1, groups) == groups;
  }

  lemma MulNested(rows: nat, a: nat, b: nat)
    requires a <= b
    ensures Area(rows, a) <= Area(rows, b)
  {
  }

  /** What a row's own bytes decode to: the dequantised row slice. */
  lemma RowBytesDecode(q: Quantized, rows: nat, width: nat, config: Config, r: nat, bytesOf: real -> (Byte, Byte),
                       half: (Byte, Byte) -> real)
    requires IsConfig(config, width) && width > 0 && width % GroupWidth(config, width) == 0
    requires Reshapes(q, rows, PackedLength(width, config.bits), width / GroupWidth(config, width)) && r < rows
    requires (q.zeros.Some? <==> !config.symmetric) && StoredExactly(q.scales, bytesOf, half)
    requires q.zeros.Some? ==> StoredExactly(q.zeros.value, bytesOf, half)
    ensures Holds(q, rows, width, config)
    ensures
      var stride, groups := PackedLength(width, config.bits), width / GroupWidth(config, width);
      && Area(r, stride) <= Area(r + 1, stride) <= |q.packed| && Area(r, groups) <= Area(r + 1, groups) <= |q.scales|
      && Holds(RowSlice(q, stride, groups, r), 1, width, config)
      && DecodeRecord(RowBytes(q, rows, stride, groups, r, bytesOf), [width],
                      config.bits, config.groupSize, config.symmetric,
                      SectionSpans(1, width, config.bits, GroupWidth(config, width), config.symmetric), 0, half)
        == Ok(Dequantize(RowSlice(q, stride, groups, r), 1, width, config))
  {
    hide PackedLength, PerByte, GroupsPerRow, PaddedWidth, Holds, Dequantize, HalfBytes, SectionSpans, DecodeRecord,
         RecordSections;
    var stride, groups := PackedLength(width, config.bits), width / GroupWidth(config, width);
    RowIsReshaped(q, rows, width, config, r);
    var part := RowSlice(q, stride, groups, r);
    var spans := SectionSpans(1, width, config.bits, GroupWidth(config, width), config.symmetric);
    RowSpans(width, config);
    SlicesStoredExactly(q.scales, Area(r, groups), Area(r + 1, groups), bytesOf, half);
    if q.zeros.Some? {
      SlicesStoredExactly(q.zeros.value, Area(r, groups), Area(r + 1, groups), bytesOf, half);
    }
    PackedCovers(width, config.bits);
    SectionsReadBack([], part, spans, [], bytesOf, half);
    var bytes := RowBytes(q, rows, stride, groups, r, bytesOf);
    assert [] + SectionsToBytes(part, spans, bytesOf).value + [] == bytes;
    DimsOfRow(width);
    SectionsDecode(bytes, [width], config, spans, 0, half, part);
  }

  /** Row `r` on its own dequantises to its row of the shard. */
  ghost predicate RowDequantises(q: Quantized, rows: nat, width: nat, config: Config, r: nat)
    requires IsConfig(config, width) && width % GroupWidth(config, width) == 0
    requires Reshapes(q, rows, PackedLength(width, config.bits), width / GroupWidth(config, width)) && r < rows
  {
    RowIsReshaped(q, rows, width, config, r);
    var part := RowSlice(q, PackedLength(width, config.bits), width / GroupWidth(config, width), r);
    Dequantize(part, 1, width, config) == [Dequantize(q, rows, width, config)[r]]
  }

  lemma AloneDequantises(q: Quantized, rows: nat, width: nat, config: Config, r: nat)
    requires IsConfig(config, width) && width % GroupWidth(config, width) == 0
    requires RowsStandAlone(rows, width, config.bits)
    requires Reshapes(q, rows, PackedLength(width, config.bits), width / GroupWidth(config, width)) && r < rows
    ensures RowDequantises(q, rows, width, config, r)
  {
    hide PackedLength, PerByte, GroupsPerRow, PaddedWidth, Dequantize, Holds, CodeOf, FlatIndex, RtnMatrix.Decoded;
    RowIsReshaped(q, rows, width, config, r);
    var part := RowSlice(q, PackedLength(width, config.bits), width / GroupWidth(config, width), r);
    forall c | 0 <= c < width
      ensures Dequantize(part, 1, width, config)[0][c] == Dequantize(q, rows, width, config)[r][c]
    {
      DequantizeAt(part, 1, width, config, 0, c);
      DequantizeAt(q, rows, width, config, r, c);
      AloneWeight(q, rows, width, config, r, c);
    }
    assert Dequantize(part, 1, width, config)[0] == Dequantize(q, rows, width, config)[r];
  }

  /** The weight at column `c` of row `r` alone is decoded with that row's own parameters, but from
      the code that its bytes start counting at. */
  lemma RowWeight(q: Quantized, rows: nat, width: nat, config: Config, r: nat, c: nat)
    requires IsConfig(config, width) && width % GroupWidth(config, width) == 0
    requires Reshapes(q, rows, PackedLength(width, config.bits), width / GroupWidth(config, width)) && r < rows
    requires c < width
    ensures
      var stride, groups := PackedLength(width, config.bits), width / GroupWidth(config, width);
      var cut := RowCut(q.packed, stride, rows, r);
      var g := FlatIndex(r, groups, c / GroupWidth(config, width));
      && Area(r, stride) <= Area(r + 1, stride) <= |q.packed| && Area(r, groups) <= Area(r + 1, groups) <= |q.scales|
      && g < |q.scales| && c / PerByte(config.bits) < |cut|
      && FlatIndex(r, width, c) / PerByte(config.bits) < |q.packed|
      && Holds(q, rows, width, config) && Holds(RowSlice(q, stride, groups, r), 1, width, config)
      && var zero := if q.zeros.Some? then q.zeros.value[g] else (MaxInt(config.bits) / 2) as real;
         && DequantAt(RowSlice(q, stride, groups, r), 1, width, config, 0, c)
           == RtnMatrix.Decoded(CodeOf(cut, config.bits, c), zero, q.scales[g])
         && DequantAt(q, rows, width, config, r, c)
           == RtnMatrix.Decoded(CodeOf(q.packed, config.bits, FlatIndex(r, width, c)), zero, q.scales[g])
  {
    hide PackedLength, PerByte, GroupsPerRow, PaddedWidth, CodeOf, RtnMatrix.Decoded, Holds, MaxInt;
    var stride, gs := PackedLength(width, config.bits), GroupWidth(config, width);
    var groups := width / gs;
    RowIsReshaped(q, rows, width, config, r);
    RowInSections(rows, stride, r);
    RowInSections(rows, groups, r);
    NoPadding(width, gs);
    ColumnIsPadded(width, gs, c);
    var part := RowSlice(q, stride, groups, r);
    InSections(q, rows, width, config, r, c);
    InSections(part, 1, width, config, 0, c);
    assert FlatIndex(0, width, c) == c && FlatIndex(0, groups, c / gs) == c / gs;
    RowFits(r, rows, c / gs, groups);
  }

  lemma AloneWeight(q: Quantized, rows: nat, width: nat, config: Config, r: nat, c: nat)
    requires IsConfig(config, width) && width % GroupWidth(config, width) == 0
    requires RowsStandAlone(rows, width, config.bits)
    requires Reshapes(q, rows, PackedLength(width, config.bits), width / GroupWidth(config, width)) && r < rows
    requires c < width
    ensures
      var stride, groups := PackedLength(width, config.bits), width / GroupWidth(config, width);
      && Area(r, stride) <= Area(r + 1, stride) <= |q.packed| && Area(r, groups) <= Area(r + 1, groups) <= |q.scales|
      && Holds(q, rows, width, config) && Holds(RowSlice(q, stride, groups, r), 1, width, config)
      && DequantAt(RowSlice(q, stride, groups, r), 1, width, config, 0, c) == DequantAt(q, rows, width, config, r, c)
  {
    hide PackedLength, PerByte, GroupsPerRow, PaddedWidth, CodeOf, RtnMatrix.Decoded, Holds, MaxInt, DequantAt, Slack;
    RowWeight(q, rows, width, config, r, c);
    RowReadsShifted(q.packed, rows, width, config.bits, r, c);
  }

  /** Sections whose only code is the first of row 1, decoded as it is. */
  function LoneSections(rows: nat, width: nat, config: Config): Quantized
    requires IsConfig(config, width)
  {
    var groups := Area(rows, width / GroupWidth(config, width));
    Quantized(Pack(LoneCode(Area(rows, width), width), config.bits), seq(groups, _ => 1.0),
              if config.symmetric then None else Some(seq(groups, _ => 0.0)))
  }

  /** A shard's sections: what the writer may have to cut into rows. */
  ghost predicate IsShard(q: Quantized, rows: nat, width: nat, config: Config)
    requires IsConfig(config, width) && width % GroupWidth(config, width) == 0
  {
    && Reshapes(q, rows, PackedLength(width, config.bits), width / GroupWidth(config, width))
    && (q.zeros.Some? <==> !config.symmetric)
  }

  lemma LoneIsShard(rows: nat, width: nat, config: Config)
    requires IsConfig(config, width) && width % GroupWidth(config, width) == 0
    requires PassesSizeCheck(rows, width, config.bits)
    ensures IsShard(LoneSections(rows, width, config), rows, width, config)
  {
    hide PackedLength, PerByte, Pack;
    PackedByteFields(LoneCode(Area(rows, width), width), config.bits);
  }

  lemma CodesTellApart(a: bv8, b: bv8, zero: real)
    requires a as int != b as int
    ensures RtnMatrix.Decoded(a, zero, 1.0) != RtnMatrix.Decoded(b, zero, 1.0)
  {
  }

  lemma LoneRowMisreads(rows: nat, width: nat, config: Config)
    requires IsConfig(config, width) && width % GroupWidth(config, width) == 0 && width > 0
    requires PassesSizeCheck(rows, width, config.bits) && !RowsStandAlone(rows, width, config.bits)
    ensures IsShard(LoneSections(rows, width, config), rows, width, config)
    ensures !RowDequantises(LoneSections(rows, width, config), rows, width, config, 1)
  {
    hide PackedLength, PerByte, Dequantize, Holds, CodeOf, RtnMatrix.Decoded, Pack, LoneCode, DequantAt, RowCut;
    var q := LoneSections(rows, width, config);
    LoneIsShard(rows, width, config);
    RowIsReshaped(q, rows, width, config, 1);
    var part := RowSlice(q, PackedLength(width, config.bits), width / GroupWidth(config, width), 1);
    LoneCodeIsMissed(rows, width, config.bits);
    RowWeight(q, rows, width, config, 1, 0);
    DequantizeAt(part, 1, width, config, 0, 0);
    DequantizeAt(q, rows, width, config, 1, 0);
    CodesTellApart(0, 1, if q.zeros.Some? then 0.0 else (MaxInt(config.bits) / 2) as real);
  }

  /** Of the shards the writer accepts, those and only those with no slack, or a single row, decode
      row by row to what the whole shard decodes to. */
  lemma ShardRowsDequantiseIff(rows: nat, width: nat, config: Config)
    requires IsConfig(config, width) && width % GroupWidth(config, width) == 0 && width > 0
    requires PassesSizeCheck(rows, width, config.bits)
    ensures RowsStandAlone(rows, width, config.bits) <==>
      forall q, r: nat :: IsShard(q, rows, width, config) && r < rows ==> RowDequantises(q, rows, width, config, r)
  {
    hide RowDequantises, PackedLength, PerByte, LoneSections, Slack;
    if RowsStandAlone(rows, width, config.bits) {
      forall q, r: nat | IsShard(q, rows, width, config) && r < rows ensures RowDequantises(q, rows, width, config, r) {
        AloneDequantises(q, rows, width, config, r);
      }
    } else {
      LoneRowMisreads(rows, width, config);
    }
  }

  /** Every row of such a shard, read back on its own, decodes to its row of the shard. */
  lemma ShardRowDecodes(q: Quantized, rows: nat, width: nat, config: Config, r: nat, bytesOf: real -> (Byte, Byte),
                        half: (Byte, Byte) -> real)
    requires IsConfig(config, width) && width > 0 && width % GroupWidth(config, width) == 0
    requires RowsStandAlone(rows, width, config.bits) && IsShard(q, rows, width, config) && r < rows
    requires StoredExactly(q.scales, bytesOf, half) && (q.zeros.Some? ==> StoredExactly(q.zeros.value, bytesOf, half))
    ensures Holds(q, rows, width, config)
    ensures
      var bytes := RowBytes(q, rows, PackedLength(width, config.bits), width / GroupWidth(config, width), r, bytesOf);
      DecodeRecord(bytes, [width], config.bits, config.groupSize, config.symmetric,
                   SectionSpans(1, width, config.bits, GroupWidth(config, width), config.symmetric), 0, half)
        == Ok([Dequantize(q, rows, width, config)[r]])
  {
    hide PackedLength, PerByte, Holds, Dequantize, SectionSpans, DecodeRecord, RowSlice, RowBytes, Slack;
    RowBytesDecode(q, rows, width, config, r, bytesOf, half);
    AloneDequantises(q, rows, width, config, r);
  }

  // ---------------------------------------------------------------- the row store

  class PleRowStore {
    const table: seq<Byte>
    const index: Index
    const shards: seq<Shard>
    const row: RowLayout
    const width: nat
    const config: Config
    const half: (Byte, Byte) -> real
    const capacity: int
    /** The ordered cache: logical row ids, oldest first, and their rows. */
    var cached: seq<int>
    var rows: map<int, seq<real>>

    /** Where a logical row is stored; a full package stores it under its own number. */
    function PhysicalOf(id: int): Option<int> {
      if shards == [] then Some(id)
      else match PhysicalRow(shards, id) case None => None case Some(p) => Some(p)
    }

    /** A full package stores every row under its own number, any other as far into the shard's stretch of the
        table as it is into the shard. */
    lemma PhysicalRows(id: int, logical: nat, physical: nat)
      requires Sequential(shards, logical, physical)
      ensures shards == [] ==> PhysicalOf(id) == Some(id)
      ensures forall i :: 0 <= i < |shards| && Contains(shards[i], id) ==>
        PhysicalOf(id) == Some(shards[i].physicalFirst + (id - shards[i].logicalFirst))
      ensures shards != [] && PhysicalOf(id).Some? ==> exists i :: 0 <= i < |shards| && Contains(shards[i], id)
    {
      PhysicalRowIsShifted(shards, logical, physical, id);
    }

    /** The spans of one row on its own. */
    function RowSectionSpans(): Spans
      requires GroupWidth(config, width) > 0
    {
      SectionSpans(1, width, config.bits, GroupWidth(config, width), config.symmetric)
    }

    /** `decode_row` of `read_row_raw`. */
    function Direct(id: int): Option<seq<real>>
      requires row.rowsPerPage > 0 && GroupWidth(config, width) > 0
    {
      if PhysicalOf(id) == None || PhysicalOf(id).value < 0 || table == [] then None
      else
        var raw := Cut(table, RowOffset(row, PhysicalOf(id).value), row.payloadBytes);
        var decoded := DecodeRecord(raw, [width], config.bits, config.groupSize, config.symmetric,
                                    RowSectionSpans(), 0, half);
        if decoded.Ok? && |decoded.rows| == 1 then Some(decoded.rows[0]) else None
    }

    ghost predicate Valid()
      reads this
    {
      && row.rowsPerPage > 0 && GroupWidth(config, width) > 0
      && Distinct(cached) && (forall id :: id in cached <==> id in rows)
      && |cached| <= (if capacity < 0 then 0 else capacity)
      && forall id :: id in rows ==> Direct(id) == Some(rows[id])
    }

    constructor (table: seq<Byte>, index: Index, shards: seq<Shard>, row: RowLayout, width: nat, config: Config,
                 half: (Byte, Byte) -> real, capacity: int)
      requires row.rowsPerPage > 0 && GroupWidth(config, width) > 0
      ensures Valid() && cached == []
      ensures this.table == table && this.index == index && this.shards == shards && this.row == row
      ensures this.width == width && this.config == config && this.half == half && this.capacity == capacity
    {
      this.table, this.index, this.shards, this.row, this.width := table, index, shards, row, width;
      this.config, this.half, this.capacity := config, half, capacity;
      cached, rows := [], map[];
    }

    /** `fetch_row`: whatever the cache holds, the row read and decoded directly. Apart from rows
        that cannot be read it fails exactly when there is no room to cache one. */
    method FetchRow(id: int) returns (result: Option<seq<real>>)
      requires Valid()
      modifies this
      ensures Valid()
      ensures result.Some? ==> Direct(id) == result
      ensures result == None <==> id !in old(rows) && (Direct(id) == None || capacity <= 0)
      ensures cached ==
        if id in old(rows) then Without(old(cached), id) + [id]
        else if result == None then old(cached)
        else (if |old(cached)| >= capacity then old(cached)[1..] else old(cached)) + [id]
    {
      if id in rows {
        Refresh(id);
        return Some(rows[id]);
      }
      var direct := Direct(id);
      if direct == None {
        return None;
      }
      if |cached| >= capacity {
        if cached == [] {
          return None;
        }
        DropOldest();
      }
      cached, rows := cached + [id], rows[id := direct.value];
      return direct;
    }

    method Refresh(id: int)
      requires Valid() && id in rows
      modifies this`cached
      ensures Valid() && cached == Without(old(cached), id) + [id]
    {
      WithoutIsDistinct(cached, id);
      forall k ensures k in Without(cached, id) <==> k in cached && k != id {
        WithoutMembers(cached, id, k);
      }
      cached := Without(cached, id) + [id];
    }

    method DropOldest()
      requires Valid() && cached != []
      modifies this
      ensures Valid() && cached == old(cached)[1..] && rows == old(rows) - {old(cached)[0]}
    {
      assert cached == [cached[0]] + cached[1..];
      cached, rows := cached[1..], rows - {cached[0]};
    }

    /** The row of head `h` for this history has no number or cannot be read. */
    ghost predicate HeadFails(history: seq<int>, h: nat)
      requires row.rowsPerPage > 0 && GroupWidth(config, width) > 0 && IsBuilt(index) && h < index.numHeads
    {
      var id := RowId(index, h, Padded(index, history));
      id == None || Direct(id.value) == None
    }

    /** `fetch_step_embedding`: the rows of all heads for the current history. It fails exactly when there
        is no room to cache a row, or some head's row has no number or cannot be read. */
    method FetchStepEmbedding(history: seq<int>) returns (result: Option<seq<seq<real>>>)
      requires Valid() && IsBuilt(index)
      modifies this
      ensures Valid()
      ensures result == None <==> capacity <= 0 || exists h: nat :: h < index.numHeads && HeadFails(history, h)
      ensures result.Some? ==> |result.value| == index.numHeads
      ensures result.Some? ==> forall h :: 0 <= h < index.numHeads ==>
        RowId(index, h, Padded(index, history)).Some?
        && Direct(RowId(index, h, Padded(index, history)).value) == Some(result.value[h])
    {
      hide Direct, RowId;
      var ids := HashAllHeads(index, history);
      if ids == None {
        ghost var h: nat :| h < index.numHeads && RowId(index, h, Padded(index, history)).None?;
        assert HeadFails(history, h);
        return None;
      }
      var tensors: seq<seq<real>> := [];
      for h := 0 to |ids.value|
        invariant Valid() && |tensors| == h
        invariant forall k :: 0 <= k < h ==> Direct(ids.value[k]) == Some(tensors[k]) && !HeadFails(history, k)
        invariant h > 0 ==> capacity > 0
      {
        var fetched := FetchRow(ids.value[h]);
        if fetched == None {
          assert Direct(ids.value[h]) == None ==> HeadFails(history, h);
          return None;
        }
        tensors := tensors + [fetched.value];
      }
      return Some(tensors);
    }

    /** Reading through a table that holds the written bytes of a row gives that row of its shard. */
    lemma StoredRowIsFetched(q: Quantized, shardRows: nat, r: nat, id: int, bytesOf: real -> (Byte, Byte))
      requires row.rowsPerPage > 0 && IsConfig(config, width) && width > 0
      requires width % GroupWidth(config, width) == 0 && RowsStandAlone(shardRows, width, config.bits)
      requires IsShard(q, shardRows, width, config) && r < shardRows
      requires StoredExactly(q.scales, bytesOf, half) && (q.zeros.Some? ==> StoredExactly(q.zeros.value, bytesOf, half))
      requires PhysicalOf(id).Some? && PhysicalOf(id).value >= 0 && table != []
      requires Cut(table, RowOffset(row, PhysicalOf(id).value), row.payloadBytes)
        == RowBytes(q, shardRows, PackedLength(width, config.bits), width / GroupWidth(config, width), r, bytesOf)
      ensures Holds(q, shardRows, width, config)
      ensures Direct(id) == Some(Dequantize(q, shardRows, width, config)[r])
    {
      hide PackedLength, PerByte, Holds, Dequantize, SectionSpans, DecodeRecord, RowBytes, Reshapes, RowOffset, Cut,
           Slack;
      ShardRowDecodes(q, shardRows, width, config, r, bytesOf, half);
    }
  }
}
