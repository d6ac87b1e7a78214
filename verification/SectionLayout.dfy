/** Planned byte spans of a quantised matrix, and the bytes the writer emits into them. */
module SectionLayout {
  import opened Collections
  import opened Matrices
  import opened Packing
  import opened Rtn
  import opened RtnMatrix
  import opened Decode

  // ---------------------------------------------------------------- alignment and group sizes

  function AlignUp(value: nat, alignment: int): nat {
    if alignment <= 1 then value else Area((value + alignment - 1) / alignment, alignment)
  }

  /** The least multiple of the alignment that is not below the value. */
  lemma AlignUpIsLeast(value: nat, alignment: int)
    requires alignment > 1
    ensures value <= AlignUp(value, alignment) < value + alignment
    ensures AlignUp(value, alignment) % alignment == 0
    ensures forall k: nat :: value <= Area(k, alignment) ==> AlignUp(value, alignment) <= Area(k, alignment)
  {
    var q := (value + alignment - 1) / alignment;
    JoinIndex(value + alignment - 1, alignment);
    SplitIndex(q, 0, alignment);
    forall k: nat | value <= Area(k, alignment) ensures AlignUp(value, alignment) <= Area(k, alignment) {
      if k < q {
        MulMonotone(k + 1, q, alignment);
      } else {
        MulMonotone(q, k, alignment);
      }
    }
  }

  ghost predicate Divides(d: int, n: int) {
    d > 0 && n % d == 0
  }

  /** What `resolve_group_size` must return: the requested size cut down to the largest divisor,
      or the whole row when none is requested or it is too large. */
  ghost predicate IsResolved(inFeatures: int, groupSize: int, r: int) {
    if inFeatures <= 0 || groupSize <= 0 || groupSize >= inFeatures then r == inFeatures
    else 1 <= r <= groupSize && Divides(r, inFeatures) && forall d :: r < d <= groupSize ==> !Divides(d, inFeatures)
  }

  /** `resolve_group_size`. */
  method ResolveGroupSize(inFeatures: int, groupSize: int) returns (r: int)
    ensures IsResolved(inFeatures, groupSize, r)
  {
    if inFeatures <= 0 {
      return inFeatures;
    }
    if groupSize <= 0 || groupSize >= inFeatures {
      return inFeatures;
    }
    if inFeatures % groupSize == 0 {
      return groupSize;
    }
    var candidate := groupSize;
    while candidate > 0
      invariant 0 <= candidate <= groupSize
      invariant forall d :: candidate < d <= groupSize ==> !Divides(d, inFeatures)
    {
      if inFeatures % candidate == 0 {
        return candidate;
      }
      candidate := candidate - 1;
    }
    assert Divides(1, inFeatures);
    return inFeatures;
  }

  /** A resolved group size never pads. */
  lemma ResolvedNeverPads(inFeatures: nat, groupSize: int, r: int)
    requires inFeatures > 0 && IsResolved(inFeatures, groupSize, r)
    ensures 0 < r <= inFeatures && inFeatures % r == 0 && PaddedWidth(inFeatures, r) == inFeatures
  {
    if r == inFeatures {
      SplitIndex(1, 0, r);
    }
    NoPadding(inFeatures, r);
  }

  // ---------------------------------------------------------------- bytes for codes

  function Ceil(x: real): int {
    if x.Floor as real == x then x.Floor else x.Floor + 1
  }

  /** Bits a code really takes: only widths that divide 8 pack densely. */
  function StorageBits(bits: int): real {
    if bits >= 8 || bits <= 0 then bits as real else 8.0 / (8 / bits) as real
  }

  function PackedBytes(n: nat, bits: int): int {
    Ceil(n as real * StorageBits(bits) / 8.0)
  }

  lemma CeilBetween(x: real, q: int)
    requires q as real - 1.0 < x <= q as real
    ensures Ceil(x) == q
  {
  }

  lemma ProductMonotone(a: real, b: real, s: real)
    requires s > 0.0 && a <= b
    ensures a * s <= b * s
  {
  }

  lemma {:induction false} CastProduct(q: nat, d: nat)
    ensures (q * d) as real == q as real * d as real
  {
    if q > 0 {
      CastProduct(q - 1, d);
      assert q * d == (q - 1) * d + d;
      assert q as real * d as real == (q - 1) as real * d as real + d as real;
    }
  }

  /** A rounded-up division in the reals is one in the integers. */
  lemma CeilOfRatio(n: nat, d: nat)
    requires d > 0
    ensures Ceil(n as real / d as real) == (n + d - 1) / d
  {
    var q := (n + d - 1) / d;
    JoinIndex(n + d - 1, d);
    var m := q * d;
    assert n <= m < n + d;
    CastProduct(q, d);
    var x := n as real / d as real;
    QuotientTimes(n as real, d as real);
    CastOrder(n, m, d);
    RatioBetween(x, q as real, d as real, n as real, m as real);
    CeilBetween(x, q);
  }

  lemma CastOrder(n: int, m: int, d: int)
    requires n <= m < n + d
    ensures n as real <= m as real < n as real + d as real
  {
    assert (n + d) as real == n as real + d as real;
  }

  lemma QuotientTimes(x: real, d: real)
    requires d > 0.0
    ensures x / d * d == x
  {
  }

  lemma RatioBetween(x: real, q: real, d: real, n: real, m: real)
    requires d > 0.0 && x * d == n && q * d == m && n <= m < n + d
    ensures q - 1.0 < x <= q
  {
    if x > q {
      ProductBelow(q, x, d);
    }
    assert (q - x) * d == m - n;
    if q - x >= 1.0 {
      ProductMonotone(1.0, q - x, d);
    }
  }

  /** The planner's byte count is the packer's, for every length and width. */
  lemma PackedBytesIsLength(n: nat, bits: int)
    requires IsWidth(bits)
    ensures PackedBytes(n, bits) == PackedLength(n, bits)
  {
    var per := PerByte(bits);
    assert n as real * StorageBits(bits) / 8.0 == n as real / per as real;
    CeilOfRatio(n, per);
  }

  // ---------------------------------------------------------------- spans

  /** `section_spans` for a resolved group size: packed codes, scales, then zeros. */
  function SectionSpans(rows: nat, cols: nat, bits: int, gs: nat, symmetric: bool): Spans
    requires gs > 0
  {
    if bits >= 16 then Spans(Some(Span(0, Area(rows, cols) * 2)), None, None)
    else
      var groups := Area(rows, GroupsPerRow(cols, gs));
      var packed := Packed(Area(rows, PaddedWidth(cols, gs)), bits);
      Spans(Some(Span(0, packed)), Some(Span(packed, groups * 2)),
            if symmetric then None else Some(Span(packed + groups * 2, groups * 2)))
  }

  function Packed(n: nat, bits: int): nat {
    if PackedBytes(n, bits) < 0 then 0 else PackedBytes(n, bits)
  }

  function LengthOf(span: Option<Span>): nat {
    if span.Some? then span.value.length else 0
  }

  function PayloadBytes(spans: Spans): nat {
    LengthOf(spans.packed) + LengthOf(spans.scales) + LengthOf(spans.zeros)
  }

  /** Sections follow one another without gap or overlap. */
  lemma SpansAreContiguous(rows: nat, cols: nat, bits: int, gs: nat, symmetric: bool)
    requires gs > 0
    ensures
      var spans := SectionSpans(rows, cols, bits, gs, symmetric);
      && spans.packed.Some? && spans.packed.value.offset == 0
      && (spans.scales.Some? ==> spans.scales.value.offset == spans.packed.value.length)
      && (spans.zeros.Some? ==> spans.scales.Some?)
      && (spans.zeros.Some? ==> spans.zeros.value.offset == spans.scales.value.offset + spans.scales.value.length)
  {
  }

  // ---------------------------------------------------------------- emission

  /** Half-precision values as little-endian bytes. */
  function HalfBytes(values: seq<real>, bytesOf: real -> (Byte, Byte)): (raw: seq<Byte>)
    ensures |raw| == 2 * |values|
  {
    seq(2 * |values|, i requires 0 <= i < 2 * |values| =>
      if i % 2 == 0 then bytesOf(values[i / 2]).0 else bytesOf(values[i / 2]).1)
  }

  /** These values survive storage. */
  ghost predicate StoredExactly(values: seq<real>, bytesOf: real -> (Byte, Byte), half: (Byte, Byte) -> real) {
    forall i :: 0 <= i < |values| ==> half(bytesOf(values[i]).0, bytesOf(values[i]).1) == values[i]
  }

  lemma HalfBytesAt(values: seq<real>, bytesOf: real -> (Byte, Byte), i: nat)
    requires i < |values|
    ensures HalfBytes(values, bytesOf)[2 * i] == bytesOf(values[i]).0
    ensures HalfBytes(values, bytesOf)[2 * i + 1] == bytesOf(values[i]).1
  {
    var j, k := 2 * i, 2 * i + 1;
    assert j % 2 == 0 && j / 2 == i && k % 2 == 1 && k / 2 == i;
  }

  lemma HalvesAt(raw: seq<Byte>, half: (Byte, Byte) -> real, i: nat)
    requires 2 * i + 1 < |raw|
    ensures i < |Halves(raw, half)| && Halves(raw, half)[i] == half(raw[2 * i], raw[2 * i + 1])
  {
  }

  lemma HalvesReadBack(values: seq<real>, bytesOf: real -> (Byte, Byte), half: (Byte, Byte) -> real)
    requires StoredExactly(values, bytesOf, half)
    ensures Halves(HalfBytes(values, bytesOf), half) == values
  {
    hide Halves, HalfBytes;
    var raw := HalfBytes(values, bytesOf);
    HalvesLength(raw, half);
    forall i | 0 <= i < |values| ensures Halves(raw, half)[i] == values[i] {
      HalfBytesAt(values, bytesOf, i);
      HalvesAt(raw, half, i);
    }
  }

  /** One section: its bytes if they fill the span exactly. */
  function Emit(span: Option<Span>, raw: Option<seq<Byte>>): Option<seq<Byte>> {
    if span == None then Some([])
    else if raw.Some? && |raw.value| == span.value.length then raw
    else None
  }

  /** `_sections_to_bytes`: fails rather than shift what follows. */
  function SectionsToBytes(q: Quantized, spans: Spans, bytesOf: real -> (Byte, Byte)): Option<seq<Byte>> {
    var packed := Emit(spans.packed, Some(q.packed));
    var scales := Emit(spans.scales, Some(HalfBytes(q.scales, bytesOf)));
    var zeros := Emit(spans.zeros, if q.zeros.Some? then Some(HalfBytes(q.zeros.value, bytesOf)) else None);
    if packed == None || scales == None || zeros == None then None
    else Some(packed.value + scales.value + zeros.value)
  }

  /** What the quantiser emits fills the planned spans exactly, for every shape, width and
      resolved group size. */
  lemma PlannedIsEmitted(w: seq<seq<real>>, cols: nat, config: Config, round: real -> int,
                         bytesOf: real -> (Byte, Byte))
    requires IsMatrix(w, cols, config)
    ensures
      var q := Quantize(w, cols, config, round);
      var spans := SectionSpans(|w|, cols, config.bits, GroupWidth(config, cols), config.symmetric);
      && |q.packed| == LengthOf(spans.packed) && 2 * |q.scales| == LengthOf(spans.scales)
      && (q.zeros.Some? <==> spans.zeros.Some?) && (q.zeros.Some? ==> 2 * |q.zeros.value| == LengthOf(spans.zeros))
      && SectionsToBytes(q, spans, bytesOf).Some?
      && |SectionsToBytes(q, spans, bytesOf).value| == PayloadBytes(spans)
  {
    hide PackedBytes, PackedLength, PaddedWidth, GroupsPerRow, Pack, Codes, Scales, ZeroPoints, Flatten;
    QuantizedHolds(w, cols, config, round);
    PackedBytesIsLength(Area(|w|, PaddedWidth(cols, GroupWidth(config, cols))), config.bits);
  }

  /** The values stand from `start` on, two bytes each, as `bytesOf` gives them. */
  ghost predicate HalvesStand(raw: seq<Byte>, start: nat, values: seq<real>, bytesOf: real -> (Byte, Byte)) {
    start + 2 * |values| <= |raw| && forall i :: 0 <= i < |values| ==>
      raw[start + 2 * i] == bytesOf(values[i]).0 && raw[start + 2 * i + 1] == bytesOf(values[i]).1
  }

  lemma HalvesStandBetween(before: seq<Byte>, values: seq<real>, after: seq<Byte>, bytesOf: real -> (Byte, Byte))
    ensures HalvesStand(before + HalfBytes(values, bytesOf) + after, |before|, values, bytesOf)
  {
    hide HalfBytes;
    var raw := before + HalfBytes(values, bytesOf) + after;
    forall i | 0 <= i < |values|
      ensures raw[|before| + 2 * i] == bytesOf(values[i]).0 && raw[|before| + 2 * i + 1] == bytesOf(values[i]).1
    {
      HalfBytesAt(values, bytesOf, i);
    }
  }

  /** A payload is the packed codes, then every scale, then every zero point. */
  lemma EmittedInOrder(q: Quantized, spans: Spans, bytesOf: real -> (Byte, Byte))
    requires spans.packed.Some? && spans.scales.Some? && (spans.zeros.Some? <==> q.zeros.Some?)
    requires SectionsToBytes(q, spans, bytesOf).Some?
    ensures
      var raw := SectionsToBytes(q, spans, bytesOf).value;
      && q.packed <= raw && HalvesStand(raw, |q.packed|, q.scales, bytesOf)
      && (q.zeros.None? ==> |raw| == |q.packed| + 2 * |q.scales|)
      && (q.zeros.Some? ==>
            && HalvesStand(raw, |q.packed| + 2 * |q.scales|, q.zeros.value, bytesOf)
            && |raw| == |q.packed| + 2 * |q.scales| + 2 * |q.zeros.value|)
  {
    hide HalfBytes, HalvesStand;
    var raw := SectionsToBytes(q, spans, bytesOf).value;
    var zeros := if q.zeros.Some? then HalfBytes(q.zeros.value, bytesOf) else [];
    assert raw == q.packed + HalfBytes(q.scales, bytesOf) + zeros;
    HalvesStandBetween(q.packed, q.scales, zeros, bytesOf);
    if q.zeros.Some? {
      HalvesStandBetween(q.packed + HalfBytes(q.scales, bytesOf), q.zeros.value, [], bytesOf);
      assert q.packed + HalfBytes(q.scales, bytesOf) + zeros + [] == raw;
    }
  }

  // ---------------------------------------------------------------- the record round trip

  lemma CutMiddle(before: seq<Byte>, a: seq<Byte>, rest: seq<Byte>)
    ensures Cut(before + (a + rest), |before|, |a|) == a
  {
  }

  lemma ExactlyMiddle(before: seq<Byte>, a: seq<Byte>, rest: seq<Byte>)
    requires a != []
    ensures Exactly(before + (a + rest), |before|, |a|) == Some(a)
  {
    CutMiddle(before, a, rest);
  }

  lemma HalvesMiddle(before: seq<Byte>, values: seq<real>, rest: seq<Byte>, bytesOf: real -> (Byte, Byte),
                     half: (Byte, Byte) -> real)
    requires values != [] && StoredExactly(values, bytesOf, half)
    ensures ReadHalves(before + (HalfBytes(values, bytesOf) + rest), |before|, 2 * |values|, half) == Some(values)
  {
    ExactlyMiddle(before, HalfBytes(values, bytesOf), rest);
    HalvesReadBack(values, bytesOf, half);
  }

  lemma SectionsReadBack(before: seq<Byte>, q: Quantized, spans: Spans, after: seq<Byte>, bytesOf: real -> (Byte, Byte),
                         half: (Byte, Byte) -> real)
    requires q.packed != [] && q.scales != [] && (q.zeros.Some? ==> q.zeros.value != [])
    requires spans.packed == Some(Span(0, |q.packed|)) && spans.scales == Some(Span(|q.packed|, 2 * |q.scales|))
    requires spans.zeros == if q.zeros.Some? then Some(Span(|q.packed| + 2 * |q.scales|, 2 * |q.zeros.value|)) else None
    requires StoredExactly(q.scales, bytesOf, half) && (q.zeros.Some? ==> StoredExactly(q.zeros.value, bytesOf, half))
    ensures SectionsToBytes(q, spans, bytesOf).Some?
    ensures RecordSections(before + SectionsToBytes(q, spans, bytesOf).value + after, spans, |before|, half) == Some(q)
  {
    hide Exactly, ReadHalves, HalfBytes, Halves;
    var scales := HalfBytes(q.scales, bytesOf);
    var zeros := if q.zeros.Some? then HalfBytes(q.zeros.value, bytesOf) else [];
    var payload := before + (q.packed + scales + zeros) + after;
    assert payload == before + (q.packed + (scales + zeros + after));
    ExactlyMiddle(before, q.packed, scales + zeros + after);
    assert payload == (before + q.packed) + (scales + (zeros + after));
    HalvesMiddle(before + q.packed, q.scales, zeros + after, bytesOf, half);
    if q.zeros.Some? {
      assert payload == (before + q.packed + scales) + (zeros + after);
      HalvesMiddle(before + q.packed + scales, q.zeros.value, after, bytesOf, half);
    }
  }

  /** Writing a quantised matrix anywhere in a record and decoding it there gives back exactly
      its dequantisation, provided scales and zeros survive storage. */
  lemma RecordRoundTrip(before: seq<Byte>, w: seq<seq<real>>, cols: nat, config: Config, round: real -> int,
                        after: seq<Byte>, bytesOf: real -> (Byte, Byte), half: (Byte, Byte) -> real)
    requires IsMatrix(w, cols, config) && w != [] && cols > 0
    requires StoredExactly(Quantize(w, cols, config, round).scales, bytesOf, half)
    requires Quantize(w, cols, config, round).zeros.Some? ==>
      StoredExactly(Quantize(w, cols, config, round).zeros.value, bytesOf, half)
    ensures
      var q := Quantize(w, cols, config, round);
      var spans := SectionSpans(|w|, cols, config.bits, GroupWidth(config, cols), config.symmetric);
      && SectionsToBytes(q, spans, bytesOf).Some? && Holds(q, |w|, cols, config)
      && DecodeRecord(before + SectionsToBytes(q, spans, bytesOf).value + after, [|w|, cols], config.bits,
                      config.groupSize, config.symmetric, spans, |before|, half) == Ok(Dequantize(q, |w|, cols, config))
  {
    hide PackedBytes, PackedLength, PaddedWidth, GroupsPerRow, Quantize, Dequantize, SectionsToBytes, Holds,
         RecordSections;
    var q := Quantize(w, cols, config, round);
    var spans := SectionSpans(|w|, cols, config.bits, GroupWidth(config, cols), config.symmetric);
    QuantizedHolds(w, cols, config, round);
    PlannedIsEmitted(w, cols, config, round, bytesOf);
    SpansAreContiguous(|w|, cols, config.bits, GroupWidth(config, cols), config.symmetric);
    SectionsAreNonempty(w, cols, config, round);
    SectionsReadBack(before, q, spans, after, bytesOf, half);
    assert MatrixDims([|w|, cols]) == (|w|, cols) by {
      DimsOfMatrix(|w|, cols);
    }
    SectionsDecode(before + SectionsToBytes(q, spans, bytesOf).value + after, [|w|, cols], config, spans, |before|,
                   half, q);
  }

  lemma {:induction false} ProductAppends(dims: seq<nat>, last: nat)
    ensures Product(dims + [last]) == Area(Product(dims), last)
  {
    if dims == [] {
      assert [last][1..] == [];
      assert dims + [last] == [last];
    } else {
      assert (dims + [last])[1..] == dims[1..] + [last];
      ProductAppends(dims[1..], last);
      AreaOfArea(dims[0], Product(dims[1..]), last);
    }
  }

  /** A shape is laid out as rows along its last dimension; a scalar is one row of one weight. */
  lemma DimsOfShape(shape: seq<nat>)
    ensures Area(MatrixDims(shape).0, MatrixDims(shape).1) == Product(shape)
    ensures shape != [] ==> MatrixDims(shape).1 == shape[|shape| - 1]
  {
    if shape != [] {
      assert shape == shape[..|shape| - 1] + [shape[|shape| - 1]];
      ProductAppends(shape[..|shape| - 1], shape[|shape| - 1]);
    }
  }

  /** A matrix kept in half precision fills its planned span, and is read back row by row. */
  lemma VerbatimRoundTrip(before: seq<Byte>, flat: seq<real>, rows: nat, cols: nat, bits: int, gs: nat, groupSize: int,
                          symmetric: bool, after: seq<Byte>, bytesOf: real -> (Byte, Byte),
                          half: (Byte, Byte) -> real)
    requires bits >= 16 && gs > 0 && |flat| == Area(rows, cols) > 0 && StoredExactly(flat, bytesOf, half)
    ensures PayloadBytes(SectionSpans(rows, cols, bits, gs, symmetric)) == |HalfBytes(flat, bytesOf)|
    ensures
      var decoded := DecodeRecord(before + HalfBytes(flat, bytesOf) + after, [rows, cols], bits, groupSize, symmetric,
                                  SectionSpans(rows, cols, bits, gs, symmetric), |before|, half);
      decoded.Ok? && |decoded.rows| == rows && AllLength(decoded.rows, cols) && Flatten(decoded.rows) == flat
  {
    hide HalfBytes, Halves, Exactly, ReadHalves, MatrixDims, AsRows, Flatten;
    DimsOfMatrix(rows, cols);
    assert before + HalfBytes(flat, bytesOf) + after == before + (HalfBytes(flat, bytesOf) + after);
    HalvesMiddle(before, flat, after, bytesOf, half);
    RowsOfFlat(flat, rows, cols);
    assert Area(rows, cols) * 2 == 2 * |flat|;
  }

  lemma RowsOfFlat(flat: seq<real>, rows: nat, cols: nat)
    requires |flat| == Area(rows, cols)
    ensures Flatten(AsRows(flat, rows, cols)) == flat
  {
    hide Flatten;
    var w := AsRows(flat, rows, cols);
    FlattenLength(w, cols);
    forall k | 0 <= k < |flat| ensures Flatten(w)[k] == flat[k] {
      if cols > 0 {
        QuotientBelow(k, cols, rows);
        JoinIndex(k, cols);
        FlattenAt(w, cols, k / cols, k % cols);
      }
    }
  }

  lemma DimsOfMatrix(rows: nat, cols: nat)
    ensures MatrixDims([rows, cols]) == (rows, cols)
  {
    assert [rows, cols][..1] == [rows];
    assert Product([rows]) == Area(rows, Product([]));
  }

  lemma SectionsAreNonempty(w: seq<seq<real>>, cols: nat, config: Config, round: real -> int)
    requires IsMatrix(w, cols, config) && w != [] && cols > 0
    ensures
      var q := Quantize(w, cols, config, round);
      && q.packed != [] && q.scales != [] && (q.zeros.Some? ==> q.zeros.value != [])
      && (q.zeros.Some? <==> !config.symmetric)
  {
    hide Pack, Codes, Scales, ZeroPoints, Flatten, PaddedWidth, GroupsPerRow, PackedLength, PerByte;
    StoredCode(w, cols, config, round, 0, 0) by {
      ColumnIsPadded(cols, GroupWidth(config, cols), 0);
    }
    ColumnIsPadded(cols, GroupWidth(config, cols), 0);
    StoredParams(w, cols, config, round, 0, 0 / GroupWidth(config, cols));
  }

  lemma SectionsDecode(payload: seq<Byte>, shape: seq<nat>, config: Config, spans: Spans, base: nat,
                       half: (Byte, Byte) -> real, q: Quantized)
    requires IsConfig(config, MatrixDims(shape).1)
    requires RecordSections(payload, spans, base, half) == Some(q) && (q.zeros.Some? <==> spans.zeros.Some?)
    requires !config.symmetric ==> spans.zeros.Some?
    requires Holds(q, MatrixDims(shape).0, MatrixDims(shape).1, config)
    ensures DecodeRecord(payload, shape, config.bits, config.groupSize, config.symmetric, spans, base, half)
      == Ok(Dequantize(q, MatrixDims(shape).0, MatrixDims(shape).1, config))
  {
    hide Exactly, ReadHalves, Dequantize, Holds, MatrixDims;
  }
}
