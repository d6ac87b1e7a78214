/** Quantising whole matrices: padding, grouping, packing, and back. */
module RtnMatrix {
  import opened Collections
  import opened Matrices
  import opened Packing
  import opened Rtn

  datatype Config = Config(bits: int, groupSize: int, symmetric: bool)

  /** A group size of zero or less means one group per row. */
  function GroupWidth(config: Config, cols: nat): int {
    if config.groupSize > 0 then config.groupSize else cols
  }

  ghost predicate IsConfig(config: Config, cols: nat) {
    IsWidth(config.bits) && GroupWidth(config, cols) > 0
  }

  function GroupsPerRow(cols: nat, gs: nat): nat
    requires gs > 0
  {
    (cols + gs - 1) / gs
  }

  /** A padded row is a whole number of groups. */
  function PaddedWidth(cols: nat, gs: nat): nat
    requires gs > 0
  {
    Area(GroupsPerRow(cols, gs), gs)
  }

  lemma PaddedIsGroups(cols: nat, gs: nat)
    requires gs > 0
    ensures PaddedWidth(cols, gs) == GroupsPerRow(cols, gs) * gs
    ensures cols <= PaddedWidth(cols, gs) < cols + gs
  {
    JoinIndex(cols + gs - 1, gs);
  }

  lemma NoPadding(cols: nat, gs: nat)
    requires gs > 0 && cols % gs == 0
    ensures PaddedWidth(cols, gs) == cols && GroupsPerRow(cols, gs) == cols / gs
  {
    JoinIndex(cols, gs);
    SplitIndex(cols / gs, gs - 1, gs);
  }

  /** The quantiser's own expression for the padding. */
  lemma PaddingFormula(cols: nat, gs: nat)
    requires gs > 0
    ensures PaddedWidth(cols, gs) == cols + (gs - cols % gs) % gs
  {
    var q, m := cols / gs, cols % gs;
    JoinIndex(cols, gs);
    if m == 0 {
      assert (gs - m) % gs == 0;
      NoPadding(cols, gs);
    } else {
      assert (gs - m) % gs == gs - m;
      assert q * gs + gs == (q + 1) * gs;
      SplitIndex(q + 1, m - 1, gs);
    }
  }

  function PadRow(row: seq<real>, gs: nat): (padded: seq<real>)
    requires gs > 0
    ensures |padded| == PaddedWidth(|row|, gs)
  {
    PaddedIsGroups(|row|, gs);
    row + Repeat(0.0, PaddedWidth(|row|, gs) - |row|)
  }

  lemma GroupInRow(cols: nat, gs: nat, g: nat)
    requires gs > 0 && g < GroupsPerRow(cols, gs)
    ensures 0 <= g * gs < (g + 1) * gs <= PaddedWidth(cols, gs)
  {
    PaddedIsGroups(cols, gs);
    MulMonotone(0, g, gs);
    MulMonotone(g + 1, GroupsPerRow(cols, gs), gs);
    assert (g + 1) * gs == g * gs + gs;
  }

  function GroupOf(row: seq<real>, gs: nat, g: nat): (group: seq<real>)
    requires gs > 0 && g < GroupsPerRow(|row|, gs)
    ensures group != []
  {
    GroupInRow(|row|, gs, g);
    PadRow(row, gs)[g * gs..(g + 1) * gs]
  }

  lemma ColumnInGroup(cols: nat, gs: nat, c: nat)
    requires gs > 0 && c < PaddedWidth(cols, gs)
    ensures c / gs < GroupsPerRow(cols, gs) && c / gs * gs <= c < (c / gs + 1) * gs && c == c / gs * gs + c % gs
  {
    PaddedIsGroups(cols, gs);
    QuotientBelow(c, gs, GroupsPerRow(cols, gs));
    JoinIndex(c, gs);
    assert (c / gs + 1) * gs == c / gs * gs + gs;
  }

  function RowParams(row: seq<real>, config: Config, round: real -> int, g: nat): (p: Params)
    requires IsConfig(config, |row|) && g < GroupsPerRow(|row|, GroupWidth(config, |row|))
    ensures p.scale > 0.0
  {
    var group := GroupOf(row, GroupWidth(config, |row|), g);
    ScaleIsPositive(group, config.bits, config.symmetric, round);
    GroupParams(group, config.bits, config.symmetric, round)
  }

  function EncodeByte(p: Params, x: real, config: Config, round: real -> int): bv8
    requires IsWidth(config.bits) && p.scale > 0.0
  {
    ByteOf(Encode(p, x, config.bits, config.symmetric, round))
  }

  lemma ColumnHasGroup(cols: nat, gs: nat, c: nat)
    requires gs > 0 && c < PaddedWidth(cols, gs)
    ensures c / gs < GroupsPerRow(cols, gs)
  {
    ColumnInGroup(cols, gs, c);
  }

  function RowCode(row: seq<real>, config: Config, round: real -> int, c: nat): bv8
    requires IsConfig(config, |row|) && c < PaddedWidth(|row|, GroupWidth(config, |row|))
  {
    var gs := GroupWidth(config, |row|);
    ColumnHasGroup(|row|, gs, c);
    EncodeByte(RowParams(row, config, round, c / gs), PadRow(row, gs)[c], config, round)
  }

  function RowCodes(row: seq<real>, config: Config, round: real -> int): seq<bv8>
    requires IsConfig(config, |row|)
  {
    var width := PaddedWidth(|row|, GroupWidth(config, |row|));
    seq(width, c requires 0 <= c < width =>
      RowCode(row, config, round, c))
  }

  function RowScales(row: seq<real>, config: Config, round: real -> int): seq<real>
    requires IsConfig(config, |row|)
  {
    var groups := GroupsPerRow(|row|, GroupWidth(config, |row|));
    seq(groups, g requires 0 <= g < groups =>
      RowParams(row, config, round, g).scale)
  }

  function RowZeros(row: seq<real>, config: Config, round: real -> int): seq<real>
    requires IsConfig(config, |row|)
  {
    var groups := GroupsPerRow(|row|, GroupWidth(config, |row|));
    seq(groups, g requires 0 <= g < groups =>
      RowParams(row, config, round, g).zero as real)
  }

  /** What the quantiser emits: one flat run of packed codes, scales and, when asymmetric, zeros. */
  datatype Quantized = Quantized(packed: seq<bv8>, scales: seq<real>, zeros: Option<seq<real>>)

  ghost predicate IsMatrix(w: seq<seq<real>>, cols: nat, config: Config) {
    AllLength(w, cols) && IsConfig(config, cols)
  }

  function EachRow<T>(w: seq<seq<real>>, f: seq<real> --> seq<T>): (rows: seq<seq<T>>)
    requires forall r :: 0 <= r < |w| ==> f.requires(w[r])
    ensures |rows| == |w| && forall r :: 0 <= r < |w| ==> rows[r] == f(w[r])
  {
    seq(|w|, r requires 0 <= r < |w| && f.requires(w[r]) => f(w[r]))
  }

  function Codes(w: seq<seq<real>>, cols: nat, config: Config, round: real -> int): (rows: seq<seq<bv8>>)
    requires IsMatrix(w, cols, config)
    ensures |rows| == |w| && AllLength(rows, PaddedWidth(cols, GroupWidth(config, cols)))
  {
    EachRow(w, row requires |row| == cols => RowCodes(row, config, round))
  }

  function Scales(w: seq<seq<real>>, cols: nat, config: Config, round: real -> int): (rows: seq<seq<real>>)
    requires IsMatrix(w, cols, config)
    ensures |rows| == |w| && AllLength(rows, GroupsPerRow(cols, GroupWidth(config, cols)))
  {
    EachRow(w, row requires |row| == cols => RowScales(row, config, round))
  }

  function ZeroPoints(w: seq<seq<real>>, cols: nat, config: Config, round: real -> int): (rows: seq<seq<real>>)
    requires IsMatrix(w, cols, config)
    ensures |rows| == |w| && AllLength(rows, GroupsPerRow(cols, GroupWidth(config, cols)))
  {
    EachRow(w, row requires |row| == cols => RowZeros(row, config, round))
  }

  function Quantize(w: seq<seq<real>>, cols: nat, config: Config, round: real -> int): Quantized
    requires IsMatrix(w, cols, config)
  {
    Quantized(
      Pack(Flatten(Codes(w, cols, config, round)), config.bits),
      Flatten(Scales(w, cols, config, round)),
      if config.symmetric then None else Some(Flatten(ZeroPoints(w, cols, config, round))))
  }

  // ---------------------------------------------------------------- back

  /** The sections hold enough for a `rows` by `cols` matrix. */
  predicate Holds(q: Quantized, rows: nat, cols: nat, config: Config)
    requires IsWidth(config.bits) && GroupWidth(config, cols) > 0
  {
    var gs := GroupWidth(config, cols);
    && Area(rows, PaddedWidth(cols, gs)) <= Area(|q.packed|, PerByte(config.bits))
    && |q.scales| == Area(rows, GroupsPerRow(cols, gs))
    && (q.zeros.Some? ==> |q.zeros.value| == Area(rows, GroupsPerRow(cols, gs)))
  }

  lemma InSections(q: Quantized, rows: nat, cols: nat, config: Config, r: nat, c: nat)
    requires IsConfig(config, cols) && Holds(q, rows, cols, config) && r < rows && c < cols
    ensures FlatIndex(r, PaddedWidth(cols, GroupWidth(config, cols)), c) / PerByte(config.bits) < |q.packed|
    ensures FlatIndex(r, GroupsPerRow(cols, GroupWidth(config, cols)), c / GroupWidth(config, cols)) < |q.scales|
  {
    hide PaddedWidth, GroupsPerRow, PerByte;
    var gs := GroupWidth(config, cols);
    PaddedIsGroups(cols, gs);
    ColumnInGroup(cols, gs, c);
    RowFits(r, rows, c, PaddedWidth(cols, gs));
    RowFits(r, rows, c / gs, GroupsPerRow(cols, gs));
    QuotientBelow(FlatIndex(r, PaddedWidth(cols, gs), c), PerByte(config.bits), |q.packed|);
  }

  /** A code less the zero point, times the scale. */
  function Decoded(code: bv8, zero: real, scale: real): real {
    (code as int as real - zero) * scale
  }

  /** One weight, decoded with what is stored for its group. */
  function DequantAt(q: Quantized, rows: nat, cols: nat, config: Config, r: nat, c: nat): real
    requires IsConfig(config, cols) && Holds(q, rows, cols, config) && r < rows && c < cols
  {
    InSections(q, rows, cols, config, r, c);
    var gs := GroupWidth(config, cols);
    var g := FlatIndex(r, GroupsPerRow(cols, gs), c / gs);
    var zero := if q.zeros.Some? then q.zeros.value[g] else (MaxInt(config.bits) / 2) as real;
    Decoded(CodeOf(q.packed, config.bits, FlatIndex(r, PaddedWidth(cols, gs), c)), zero, q.scales[g])
  }

  function Dequantize(q: Quantized, rows: nat, cols: nat, config: Config): (w: seq<seq<real>>)
    requires IsConfig(config, cols) && Holds(q, rows, cols, config)
    ensures |w| == rows && AllLength(w, cols)
  {
    seq(rows, r requires 0 <= r < rows => seq(cols, c requires 0 <= c < cols => DequantAt(q, rows, cols, config, r, c)))
  }

  // ---------------------------------------------------------------- the round trip

  lemma MaskIsMaxInt(bits: int)
    requires IsWidth(bits)
    ensures Mask(bits) as int == MaxInt(bits)
  {
  }

  lemma CodeUnderMask(code: int, bits: int)
    requires IsWidth(bits) && 0 <= code <= MaxInt(bits)
    ensures ByteOf(code) <= Mask(bits)
  {
    hide ByteOf, Mask, MaxInt;
    ByteReadsBack(code);
    MaskIsMaxInt(bits);
    BytesCompare(ByteOf(code), Mask(bits));
  }

  lemma RowsAreCodes(w: seq<seq<real>>, cols: nat, config: Config, round: real -> int)
    requires IsMatrix(w, cols, config)
    ensures AreCodes(Flatten(Codes(w, cols, config, round)), config.bits)
  {
    var rows := Codes(w, cols, config, round);
    forall r | 0 <= r < |rows| ensures AreCodes(rows[r], config.bits) {
      forall c | 0 <= c < |rows[r]| ensures rows[r][c] <= Mask(config.bits) {
        ColumnInGroup(cols, GroupWidth(config, cols), c);
        CodeUnderMask(Encode(RowParams(w[r], config, round, c / GroupWidth(config, cols)),
                             PadRow(w[r], GroupWidth(config, cols))[c], config.bits, config.symmetric, round),
                      config.bits);
      }
    }
    FlattenIsCodes(rows, config.bits);
  }

  lemma {:induction false} FlattenIsCodes(rows: seq<seq<bv8>>, bits: int)
    requires forall r :: 0 <= r < |rows| ==> AreCodes(rows[r], bits)
    ensures AreCodes(Flatten(rows), bits)
  {
    if rows != [] {
      FlattenIsCodes(rows[1..], bits);
    }
  }

  /** What the quantiser emits fills its sections exactly. */
  lemma QuantizedHolds(w: seq<seq<real>>, cols: nat, config: Config, round: real -> int)
    requires IsMatrix(w, cols, config)
    ensures Holds(Quantize(w, cols, config, round), |w|, cols, config)
    ensures |Quantize(w, cols, config, round).packed|
      == PackedLength(Area(|w|, PaddedWidth(cols, GroupWidth(config, cols))), config.bits)
  {
    hide PaddedWidth, GroupsPerRow, PackedLength, PerByte;
    var gs := GroupWidth(config, cols);
    FlattenLength(Codes(w, cols, config, round), PaddedWidth(cols, gs));
    FlattenLength(Scales(w, cols, config, round), GroupsPerRow(cols, gs));
    FlattenLength(ZeroPoints(w, cols, config, round), GroupsPerRow(cols, gs));
    PackedCovers(Area(|w|, PaddedWidth(cols, gs)), config.bits);
  }

  /** Quantise, then decode one weight. */
  function Restored(w: seq<seq<real>>, cols: nat, config: Config, round: real -> int, r: nat, c: nat): real
    requires IsMatrix(w, cols, config) && r < |w| && c < cols
  {
    QuantizedHolds(w, cols, config, round);
    DequantAt(Quantize(w, cols, config, round), |w|, cols, config, r, c)
  }

  /** The parameters of the group of column `c`. */
  function ParamsAt(row: seq<real>, config: Config, round: real -> int, c: nat): (p: Params)
    requires IsConfig(config, |row|) && c < |row|
    ensures p.scale > 0.0
  {
    PaddedIsGroups(|row|, GroupWidth(config, |row|));
    ColumnInGroup(|row|, GroupWidth(config, |row|), c);
    RowParams(row, config, round, c / GroupWidth(config, |row|))
  }

  lemma StoredCode(w: seq<seq<real>>, cols: nat, config: Config, round: real -> int, r: nat, c: nat)
    requires IsMatrix(w, cols, config) && r < |w| && c < PaddedWidth(cols, GroupWidth(config, cols))
    ensures
      var j := FlatIndex(r, PaddedWidth(cols, GroupWidth(config, cols)), c);
      && j / PerByte(config.bits) < |Quantize(w, cols, config, round).packed|
      && CodeOf(Quantize(w, cols, config, round).packed, config.bits, j) == RowCode(w[r], config, round, c)
  {
    hide CodeOf, Pack, RowCode, PaddedWidth, PerByte;
    RowsAreCodes(w, cols, config, round);
    FlattenAt(Codes(w, cols, config, round), PaddedWidth(cols, GroupWidth(config, cols)), r, c);
    PackedCode(Flatten(Codes(w, cols, config, round)), config.bits,
               FlatIndex(r, PaddedWidth(cols, GroupWidth(config, cols)), c));
  }

  lemma StoredParams(w: seq<seq<real>>, cols: nat, config: Config, round: real -> int, r: nat, g: nat)
    requires IsMatrix(w, cols, config) && r < |w| && g < GroupsPerRow(cols, GroupWidth(config, cols))
    ensures
      var q := Quantize(w, cols, config, round);
      var k := FlatIndex(r, GroupsPerRow(cols, GroupWidth(config, cols)), g);
      && k < |q.scales| && q.scales[k] == RowParams(w[r], config, round, g).scale
      && (config.symmetric ==> q.zeros == None)
      && (!config.symmetric ==> q.zeros.Some? && k < |q.zeros.value|)
      && (!config.symmetric ==> q.zeros.value[k] == RowParams(w[r], config, round, g).zero as real)
  {
    hide Pack, RowParams, RowCode, GroupsPerRow;
    var groups := GroupsPerRow(cols, GroupWidth(config, cols));
    FlattenAt(Scales(w, cols, config, round), groups, r, g);
    FlattenAt(ZeroPoints(w, cols, config, round), groups, r, g);
  }

  lemma SymmetricZero(row: seq<real>, config: Config, round: real -> int, g: nat)
    requires IsConfig(config, |row|) && config.symmetric && g < GroupsPerRow(|row|, GroupWidth(config, |row|))
    ensures RowParams(row, config, round, g).zero == MaxInt(config.bits) / 2
  {
  }

  lemma ColumnIsPadded(cols: nat, gs: nat, c: nat)
    requires gs > 0 && c < cols
    ensures c < PaddedWidth(cols, gs) && c / gs < GroupsPerRow(cols, gs)
  {
    PaddedIsGroups(cols, gs);
    ColumnInGroup(cols, gs, c);
  }

  /** What is read back at one position: the code and the parameters stored for it. */
  lemma RestoredParts(w: seq<seq<real>>, cols: nat, config: Config, round: real -> int, r: nat, c: nat)
    requires IsMatrix(w, cols, config) && r < |w| && c < cols
    ensures c < PaddedWidth(cols, GroupWidth(config, cols))
    ensures
      var p := ParamsAt(w[r], config, round, c);
      Restored(w, cols, config, round, r, c) == Decoded(RowCode(w[r], config, round, c), p.zero as real, p.scale)
  {
    hide Decoded, Quantize, RowParams, RowCode, CodeOf, MaxInt, PaddedWidth, GroupsPerRow, PerByte, FlatIndex, Holds;
    var gs := GroupWidth(config, cols);
    QuantizedHolds(w, cols, config, round);
    ColumnIsPadded(cols, gs, c);
    StoredCode(w, cols, config, round, r, c);
    StoredParams(w, cols, config, round, r, c / gs);
    if config.symmetric {
      SymmetricZero(w[r], config, round, c / gs);
    }
  }

  lemma RowCodeIsEncoded(row: seq<real>, config: Config, round: real -> int, c: nat)
    requires IsConfig(config, |row|) && c < |row|
    ensures c < PaddedWidth(|row|, GroupWidth(config, |row|))
    ensures
      var p := ParamsAt(row, config, round, c);
      RowCode(row, config, round, c) as int == Encode(p, row[c], config.bits, config.symmetric, round)
  {
    hide RowParams, Encode, MaxInt, PaddedWidth, GroupsPerRow, ByteOf;
    var gs := GroupWidth(config, |row|);
    ColumnIsPadded(|row|, gs, c);
    assert PadRow(row, gs)[c] == row[c];
    ByteReadsBack(Encode(ParamsAt(row, config, round, c), row[c], config.bits, config.symmetric, round));
  }

  lemma DecodedIsLevel(code: bv8, p: Params, n: int)
    requires code as int == n
    ensures Decoded(code, p.zero as real, p.scale) == Level(p, n)
  {
  }

  /** Packing, grouping and padding lose nothing: each decoded weight is the level of its code. */
  lemma DequantIsLevel(w: seq<seq<real>>, cols: nat, config: Config, round: real -> int, r: nat, c: nat)
    requires IsMatrix(w, cols, config) && r < |w| && c < cols
    ensures
      var p := ParamsAt(w[r], config, round, c);
      Restored(w, cols, config, round, r, c) == Level(p, Encode(p, w[r][c], config.bits, config.symmetric, round))
  {
    hide Restored, ParamsAt, RowCode, Encode, PaddedWidth, GroupWidth, Decoded, Level;
    RestoredParts(w, cols, config, round, r, c);
    RowCodeIsEncoded(w[r], config, round, c);
    var p := ParamsAt(w[r], config, round, c);
    DecodedIsLevel(RowCode(w[r], config, round, c), p, Encode(p, w[r][c], config.bits, config.symmetric, round));
  }

  lemma WithinHalfScale(w: seq<seq<real>>, cols: nat, config: Config, round: real -> int, r: nat, c: nat)
    requires IsMatrix(w, cols, config) && IsNearest(round) && r < |w| && c < cols
    ensures Abs(Restored(w, cols, config, round, r, c) - w[r][c]) <= ParamsAt(w[r], config, round, c).scale / 2.0
  {
    hide Level, Encode, GroupParams, Restored, MaxInt, PaddedWidth, GroupsPerRow;
    var gs := GroupWidth(config, cols);
    DequantIsLevel(w, cols, config, round, r, c);
    PaddedIsGroups(cols, gs);
    ColumnInGroup(cols, gs, c);
    GroupInRow(cols, gs, c / gs);
    var group := GroupOf(w[r], gs, c / gs);
    assert group[c % gs] == w[r][c];
    RoundingBound(group, c % gs, config.bits, config.symmetric, round);
  }

  // ---------------------------------------------------------------- the bound in the weights' own terms

  /** A weight of a row, or the zero that pads it. */
  function WeightAt(row: seq<real>, k: nat): real {
    if k < |row| then row[k] else 0.0
  }

  /** `x` differs from weight `c` of a row by at most half the step that two weights of its group span. */
  ghost predicate IsNear(x: real, row: seq<real>, config: Config, c: nat)
    requires IsConfig(config, |row|) && c < |row|
  {
    var gs := if config.groupSize > 0 then config.groupSize else |row|;
    exists k: nat, l: nat ::
      var step := FlooredStep(WeightAt(row, k), WeightAt(row, l), config.bits, config.symmetric);
      k / gs == l / gs == c / gs && -(step / 2.0) <= x - row[c] <= step / 2.0
  }

  lemma PaddedWeight(row: seq<real>, gs: nat, k: nat)
    requires gs > 0 && k < PaddedWidth(|row|, gs)
    ensures PadRow(row, gs)[k] == WeightAt(row, k)
  {
  }

  /** A member of a group is a weight of that group's columns. */
  lemma MemberIsWeight(row: seq<real>, gs: nat, g: nat, x: real) returns (k: nat)
    requires gs > 0 && g < GroupsPerRow(|row|, gs) && x in GroupOf(row, gs, g)
    ensures k / gs == g && WeightAt(row, k) == x
  {
    var group := GroupOf(row, gs, g);
    GroupInRow(|row|, gs, g);
    var i: nat :| i < |group| && group[i] == x;
    k := g * gs + i;
    assert group == PadRow(row, gs)[g * gs..(g + 1) * gs];
    assert (g + 1) * gs == g * gs + gs;
    PaddedWeight(row, gs, k);
    SplitIndex(g, i, gs);
  }

  /** Quantising and dequantising a matrix moves no weight by more than half its group's scale, which is
      half the step that the group's own weights span. */
  lemma QuantizeBound(w: seq<seq<real>>, cols: nat, config: Config, round: real -> int, r: nat, c: nat)
    requires IsMatrix(w, cols, config) && IsNearest(round) && r < |w| && c < cols
    ensures Abs(Restored(w, cols, config, round, r, c) - w[r][c]) <= ParamsAt(w[r], config, round, c).scale / 2.0
    ensures IsNear(Restored(w, cols, config, round, r, c), w[r], config, c)
  {
    hide Restored, GroupParams, PaddedWidth, GroupsPerRow, GroupOf, FlooredStep, Power;
    var gs := GroupWidth(config, cols);
    WithinHalfScale(w, cols, config, round, r, c);
    ColumnIsPadded(cols, gs, c);
    var group := GroupOf(w[r], gs, c / gs);
    var a, b := ParamsFromExtremes(group, config.bits, config.symmetric, round);
    var k := MemberIsWeight(w[r], gs, c / gs, a);
    var l := MemberIsWeight(w[r], gs, c / gs, b);
    assert WeightAt(w[r], k) == a && WeightAt(w[r], l) == b;
  }
}
