/** Decoding packaged bytes: a whole record, and rows of it without the rest. */
module Decode {
  import opened Collections
  import opened Matrices
  import opened Packing
  import opened RtnMatrix

  type Byte = bv8

  /** Offset and length of one section, relative to its record. */
  datatype Span = Span(offset: nat, length: nat)

  datatype Spans = Spans(packed: Option<Span>, scales: Option<Span>, zeros: Option<Span>)

  datatype Decoded = Ok(rows: seq<seq<real>>) | DecodeError

  /** `(rows, in_features)` of a shape: the last dimension, and the product of the others. */
  function MatrixDims(shape: seq<nat>): (nat, nat) {
    if shape == [] then (1, 1) else (Product(shape[..|shape| - 1]), shape[|shape| - 1])
  }

  /** A full run of bytes, or nothing; an empty buffer cannot be viewed. */
  function Exactly(payload: seq<Byte>, start: nat, length: nat): Option<seq<Byte>> {
    if |Cut(payload, start, length)| == length > 0 then Some(Cut(payload, start, length)) else None
  }

  /** Two bytes make a half-precision number; which one is left open. */
  function Halves(raw: seq<Byte>, half: (Byte, Byte) -> real): seq<real> {
    seq(|raw| / 2, i requires 0 <= i < |raw| / 2 => half(raw[2 * i], raw[2 * i + 1]))
  }

  /** Half-precision values of a full run of bytes, which must be an even number. */
  function ReadHalves(payload: seq<Byte>, start: nat, length: nat, half: (Byte, Byte) -> real): Option<seq<real>> {
    if length % 2 == 0 && Exactly(payload, start, length).Some?
    then Some(Halves(Exactly(payload, start, length).value, half)) else None
  }

  /** A flat run of values as rows. */
  function AsRows(flat: seq<real>, rows: nat, cols: nat): (w: seq<seq<real>>)
    requires |flat| == Area(rows, cols)
    ensures |w| == rows && AllLength(w, cols)
  {
    seq(rows, r requires 0 <= r < rows =>
      seq(cols, c requires 0 <= c < cols => (RowFits(r, rows, c, cols); flat[FlatIndex(r, cols, c)])))
  }

  /** Decode already-read sections, if they hold enough. */
  function FromSections(packed: Option<seq<Byte>>, scales: Option<seq<real>>, zeros: Option<seq<real>>,
                        zerosWanted: bool, rows: nat, cols: nat, config: Config): Decoded
  {
    if packed == None || scales == None || (zerosWanted && zeros == None) then DecodeError
    else if !IsWidth(config.bits) || GroupWidth(config, cols) <= 0 then DecodeError
    else
      var q := Quantized(packed.value, scales.value, if zerosWanted then zeros else None);
      if Holds(q, rows, cols, config) then Ok(Dequantize(q, rows, cols, config)) else DecodeError
  }

  /** `decode_record`. */
  function DecodeRecord(payload: seq<Byte>, shape: seq<nat>, bits: int, groupSize: int, symmetric: bool, spans: Spans,
                        base: nat, half: (Byte, Byte) -> real): Decoded
  {
    var (rows, cols) := MatrixDims(shape);
    if bits >= 16 then
      var raw := ReadHalves(payload, base, Area(rows, cols) * 2, half);
      if raw.Some? then Ok(AsRows(raw.value, rows, cols)) else DecodeError
    else if spans.packed == None || spans.scales == None || (!symmetric && spans.zeros == None) then DecodeError
    else
      FromSections(
        Exactly(payload, base + spans.packed.value.offset, spans.packed.value.length),
        ReadHalves(payload, base + spans.scales.value.offset, spans.scales.value.length, half),
        if spans.zeros.Some? then ReadHalves(payload, base + spans.zeros.value.offset, spans.zeros.value.length, half)
        else None,
        spans.zeros.Some?, rows, cols, Config(bits, groupSize, symmetric))
  }

  /** Whether every row starts on a byte boundary. */
  predicate RowsAreByteAligned(cols: nat, bits: int)
    requires IsWidth(bits)
  {
    cols % PerByte(bits) == 0
  }

  /** `decode_rows`. */
  function DecodeRows(payload: seq<Byte>, shape: seq<nat>, bits: int, groupSize: int, symmetric: bool, spans: Spans,
                      base: nat, half: (Byte, Byte) -> real, start: int, stop: int): Decoded
  {
    var (rows, cols) := MatrixDims(shape);
    if !(0 <= start <= stop <= rows) then DecodeError
    else if start == stop then Ok([])
    else if bits >= 16 then
      var raw := ReadHalves(payload, base + Area(start, cols * 2), Area(stop - start, cols * 2), half);
      if raw.Some? && |raw.value| == Area(stop - start, cols) then Ok(AsRows(raw.value, stop - start, cols))
      else DecodeError
    else if !IsWidth(bits) then DecodeError
    else if !RowsAreByteAligned(cols, bits) then
      var whole := DecodeRecord(payload, shape, bits, groupSize, symmetric, spans, base, half);
      if whole.Ok? && stop <= |whole.rows| then Ok(whole.rows[start..stop]) else DecodeError
    else
      var gs := if groupSize > 0 then groupSize else cols;
      if gs == 0 || cols % gs != 0 || spans.packed == None || spans.scales == None then DecodeError
      else
        var stride := PackedLength(cols, bits);
        var groups := cols / gs;
        var count := stop - start;
        FromSections(
          Exactly(payload, base + spans.packed.value.offset + Area(start, stride), Area(count, stride)),
          ReadHalves(payload, base + spans.scales.value.offset + Area(start, groups * 2), Area(count, groups * 2),
                     half),
          if spans.zeros.Some?
          then ReadHalves(payload, base + spans.zeros.value.offset + Area(start, groups * 2), Area(count, groups * 2),
                          half)
          else None,
          spans.zeros.Some?, count, cols, Config(bits, gs, symmetric))
  }

  // ---------------------------------------------------------------- slices of sections

  lemma SliceOfSlice<T>(s: seq<T>, start: nat, length: nat, from: nat, n: nat)
    requires start + length <= |s| && from + n <= length
    ensures s[start..start + length][from..from + n] == s[start + from..start + from + n]
  {
    var a, b := s[start..start + length][from..from + n], s[start + from..start + from + n];
    forall i | 0 <= i < n ensures a[i] == b[i] {
      assert s[start..start + length][from + i] == s[start + (from + i)];
    }
    assert a == b;
  }

  lemma ExactLength(payload: seq<Byte>, start: nat, length: nat)
    requires Exactly(payload, start, length).Some?
    ensures |Exactly(payload, start, length).value| == length > 0
  {
  }

  lemma CutOfCut(payload: seq<Byte>, start: nat, length: nat, from: nat, n: nat)
    requires Exactly(payload, start, length).Some? && from + n <= length && n > 0
    ensures Exactly(payload, start + from, n).Some?
    ensures Exactly(payload, start + from, n).value == Exactly(payload, start, length).value[from..from + n]
    ensures |Exactly(payload, start, length).value| == length
  {
    assert start + length <= |payload|;
    SliceOfSlice(payload, start, length, from, n);
  }

  lemma HalvesLength(raw: seq<Byte>, half: (Byte, Byte) -> real)
    ensures |Halves(raw, half)| == |raw| / 2
  {
  }

  /** A run of whole values inside a section of values. */
  lemma HalvesOfCut(payload: seq<Byte>, start: nat, length: nat, half: (Byte, Byte) -> real, from: nat, n: nat)
    requires ReadHalves(payload, start, length, half).Some? && 2 * from + 2 * n <= length && n > 0
    ensures ReadHalves(payload, start + 2 * from, 2 * n, half).Some?
    ensures |ReadHalves(payload, start, length, half).value| == length / 2
    ensures ReadHalves(payload, start + 2 * from, 2 * n, half).value
      == ReadHalves(payload, start, length, half).value[from..from + n]
  {
    hide Exactly, Halves;
    CutOfCut(payload, start, length, 2 * from, 2 * n);
    HalvesLength(Exactly(payload, start, length).value, half);
    var all, part := Exactly(payload, start, length).value, Exactly(payload, start + 2 * from, 2 * n).value;
    HalvesOfSlice(all, half, from, n);
  }

  lemma HalvesOfSlice(all: seq<Byte>, half: (Byte, Byte) -> real, from: nat, n: nat)
    requires 2 * from + 2 * n <= |all|
    ensures Halves(all[2 * from..2 * from + 2 * n], half) == Halves(all, half)[from..from + n]
  {
    var part := all[2 * from..2 * from + 2 * n];
    forall i | 0 <= i < n ensures Halves(part, half)[i] == Halves(all, half)[from + i] {
      assert part[2 * i] == all[2 * (from + i)] && part[2 * i + 1] == all[2 * (from + i) + 1];
    }
  }

  /** The run of values that rows `[start, stop)` take up. */
  lemma RowsOfValues(start: nat, stop: nat, rows: nat, n: nat)
    requires start < stop <= rows
    ensures Area(start, n) + Area(stop - start, n) == Area(stop, n) <= Area(rows, n)
    ensures Area(start, n * 2) == 2 * Area(start, n) && Area(stop - start, n * 2) == 2 * Area(stop - start, n)
    ensures n > 0 ==> Area(stop - start, n) > 0
  {
    MulMonotone(stop, rows, n);
    assert start * n + (stop - start) * n == stop * n;
    assert start * (n * 2) == 2 * (start * n);
    assert (stop - start) * (n * 2) == 2 * ((stop - start) * n);
    if n > 0 {
      MulMonotone(1, stop - start, n);
    }
  }

  // ---------------------------------------------------------------- rows against the record

  /** Sections cut down to rows `[start, stop)`. */
  ghost predicate IsSliceOf(part: Quantized, q: Quantized, cols: nat, config: Config, start: nat, stop: nat)
    requires IsConfig(config, cols)
  {
    var stride, groups := PackedLength(cols, config.bits), GroupsPerRow(cols, GroupWidth(config, cols));
    && start <= stop
    && Area(stop, stride) <= |q.packed| && Area(stop, groups) <= |q.scales|
    && Area(start, stride) <= Area(stop, stride) && Area(start, groups) <= Area(stop, groups)
    && part.packed == q.packed[Area(start, stride)..Area(stop, stride)]
    && part.scales == q.scales[Area(start, groups)..Area(stop, groups)]
    && (part.zeros.Some? <==> q.zeros.Some?)
    && (q.zeros.Some? ==> Area(stop, groups) <= |q.zeros.value|)
    && (q.zeros.Some? ==> part.zeros.value == q.zeros.value[Area(start, groups)..Area(stop, groups)])
  }

  lemma ShiftedIndex(start: nat, r: nat, n: nat, c: nat)
    ensures FlatIndex(start + r, n, c) == Area(start, n) + FlatIndex(r, n, c)
  {
    assert (start + r) * n == start * n + r * n;
  }

  lemma AlignedStride(cols: nat, bits: int)
    requires IsWidth(bits) && RowsAreByteAligned(cols, bits)
    ensures Area(PackedLength(cols, bits), PerByte(bits)) == cols
  {
    JoinIndex(cols, PerByte(bits));
    PackedLengthAdds(cols / PerByte(bits), 0, bits);
    NothingPacked(bits);
  }

  lemma AreaOfArea(a: nat, b: nat, c: nat)
    ensures Area(Area(a, b), c) == Area(a, Area(b, c))
  {
    assert a * b * c == a * (b * c);
  }

  /** A byte-aligned row slice reads the codes of its rows. */
  lemma SlicedCode(part: Quantized, q: Quantized, cols: nat, config: Config, start: nat, stop: nat, r: nat, c: nat)
    requires IsConfig(config, cols) && IsSliceOf(part, q, cols, config, start, stop)
    requires RowsAreByteAligned(cols, config.bits) && r < stop - start && c < cols
    ensures FlatIndex(r, cols, c) / PerByte(config.bits) < |part.packed|
    ensures FlatIndex(start + r, cols, c) / PerByte(config.bits) < |q.packed|
    ensures CodeOf(part.packed, config.bits, FlatIndex(r, cols, c))
      == CodeOf(q.packed, config.bits, FlatIndex(start + r, cols, c))
  {
    hide CodeOf, PackedLength, PerByte, GroupsPerRow;
    var stride, per := PackedLength(cols, config.bits), PerByte(config.bits);
    AlignedStride(cols, config.bits);
    AreaOfArea(start, stride, per);
    AreaOfArea(stop, stride, per);
    AreaOfArea(stop - start, stride, per);
    RowsOfValues(start, stop, stop, stride);
    RowFits(r, stop - start, c, cols);
    ShiftedIndex(start, r, cols, c);
    CodeOfSlice(q.packed, config.bits, Area(start, stride), Area(stop, stride), FlatIndex(r, cols, c));
  }

  lemma SlicedValue(values: seq<real>, part: seq<real>, n: nat, start: nat, stop: nat, r: nat, g: nat)
    requires start + r < stop && g < n && Area(start, n) <= Area(stop, n) <= |values|
    requires part == values[Area(start, n)..Area(stop, n)]
    ensures FlatIndex(r, n, g) < |part| && FlatIndex(start + r, n, g) < |values|
    ensures part[FlatIndex(r, n, g)] == values[FlatIndex(start + r, n, g)]
  {
    ShiftedIndex(start, r, n, g);
    RowFits(start + r, stop, g, n);
  }

  /** Each weight of the slice is the weight of its row. */
  lemma SlicedWeight(part: Quantized, q: Quantized, rows: nat, cols: nat, config: Config, start: nat, stop: nat, r: nat,
                     c: nat)
    requires IsConfig(config, cols) && Holds(q, rows, cols, config) && stop <= rows
    requires RowsAreByteAligned(cols, config.bits) && cols % GroupWidth(config, cols) == 0
    requires IsSliceOf(part, q, cols, config, start, stop) && Holds(part, stop - start, cols, config)
    requires r < stop - start && c < cols
    ensures DequantAt(part, stop - start, cols, config, r, c) == DequantAt(q, rows, cols, config, start + r, c)
  {
    hide CodeOf, PackedLength, PerByte, GroupsPerRow, PaddedWidth, FlatIndex, Holds, RtnMatrix.Decoded;
    var gs := GroupWidth(config, cols);
    var groups := GroupsPerRow(cols, gs);
    NoPadding(cols, gs);
    ColumnIsPadded(cols, gs, c);
    SlicedCode(part, q, cols, config, start, stop, r, c);
    SlicedValue(q.scales, part.scales, groups, start, stop, r, c / gs);
    if q.zeros.Some? {
      SlicedValue(q.zeros.value, part.zeros.value, groups, start, stop, r, c / gs);
    }
    InSections(part, stop - start, cols, config, r, c);
    InSections(q, rows, cols, config, start + r, c);
  }

  /** The sections a record is decoded from. */
  function RecordSections(payload: seq<Byte>, spans: Spans, base: nat, half: (Byte, Byte) -> real): Option<Quantized> {
    if spans.packed == None || spans.scales == None then None
    else
      var packed := Exactly(payload, base + spans.packed.value.offset, spans.packed.value.length);
      var scales := ReadHalves(payload, base + spans.scales.value.offset, spans.scales.value.length, half);
      if packed == None || scales == None then None
      else if spans.zeros == None then Some(Quantized(packed.value, scales.value, None))
      else
        var zeros := ReadHalves(payload, base + spans.zeros.value.offset, spans.zeros.value.length, half);
        if zeros == None then None else Some(Quantized(packed.value, scales.value, zeros))
  }

  lemma RecordIsSections(payload: seq<Byte>, shape: seq<nat>, bits: int, groupSize: int, symmetric: bool, spans: Spans,
                         base: nat, half: (Byte, Byte) -> real)
    requires bits < 16 && DecodeRecord(payload, shape, bits, groupSize, symmetric, spans, base, half).Ok?
    ensures IsConfig(Config(bits, groupSize, symmetric), MatrixDims(shape).1)
    ensures RecordSections(payload, spans, base, half).Some?
    ensures Holds(RecordSections(payload, spans, base, half).value, MatrixDims(shape).0, MatrixDims(shape).1,
                  Config(bits, groupSize, symmetric))
    ensures DecodeRecord(payload, shape, bits, groupSize, symmetric, spans, base, half).rows
      == Dequantize(RecordSections(payload, spans, base, half).value, MatrixDims(shape).0, MatrixDims(shape).1,
                    Config(bits, groupSize, symmetric))
  {
    hide Dequantize, Holds, MatrixDims, Exactly, ReadHalves;
  }

  /** The sections rows `[start, stop)` are decoded from. */
  function RowSections(payload: seq<Byte>, spans: Spans, base: nat, half: (Byte, Byte) -> real, stride: nat,
                       groups: nat, start: nat, stop: nat): Option<Quantized>
    requires start <= stop
  {
    if spans.packed == None || spans.scales == None then None
    else
      var packed := Exactly(payload, base + spans.packed.value.offset + Area(start, stride),
                            Area(stop - start, stride));
      var scales := ReadHalves(payload, base + spans.scales.value.offset + Area(start, groups * 2),
                               Area(stop - start, groups * 2), half);
      if packed == None || scales == None then None
      else if spans.zeros == None then Some(Quantized(packed.value, scales.value, None))
      else
        var zeros := ReadHalves(payload, base + spans.zeros.value.offset + Area(start, groups * 2),
                                Area(stop - start, groups * 2), half);
        if zeros == None then None else Some(Quantized(packed.value, scales.value, zeros))
  }

  /** The aligned path of `decode_rows`. */
  lemma RowsAreSections(payload: seq<Byte>, shape: seq<nat>, bits: int, groupSize: int, symmetric: bool, spans: Spans,
                        base: nat, half: (Byte, Byte) -> real, start: nat, stop: nat)
    requires IsWidth(bits) && start < stop <= MatrixDims(shape).0 && RowsAreByteAligned(MatrixDims(shape).1, bits)
    requires IsConfig(Config(bits, groupSize, symmetric), MatrixDims(shape).1)
    ensures
      var cols := MatrixDims(shape).1;
      var gs := GroupWidth(Config(bits, groupSize, symmetric), cols);
      var result := DecodeRows(payload, shape, bits, groupSize, symmetric, spans, base, half, start, stop);
      if cols % gs != 0 then result.DecodeError?
      else
        var q := RowSections(payload, spans, base, half, PackedLength(cols, bits), cols / gs, start, stop);
        q.Some? && Holds(q.value, stop - start, cols, Config(bits, gs, symmetric)) ==>
          result == Ok(Dequantize(q.value, stop - start, cols, Config(bits, gs, symmetric)))
  {
    hide Dequantize, Holds, Exactly, ReadHalves, MatrixDims, PackedLength, PerByte;
  }

  lemma ScalesArePositive(payload: seq<Byte>, start: nat, length: nat, half: (Byte, Byte) -> real)
    requires ReadHalves(payload, start, length, half).Some?
    ensures |ReadHalves(payload, start, length, half).value| == length / 2 > 0
  {
  }

  lemma PositiveFactors(a: nat, b: nat)
    ensures Area(a, b) > 0 ==> a > 0 && b > 0
  {
  }

  lemma PackedIsLong(rows: nat, stop: nat, stride: nat, packed: nat, per: nat)
    requires per > 0 && stop <= rows && Area(rows, Area(stride, per)) <= Area(packed, per)
    ensures Area(stop, stride) <= packed
  {
    AreaOfArea(rows, stride, per);
    assert Area(rows, stride) <= packed by {
      if Area(rows, stride) > packed {
        MulMonotone(packed + 1, Area(rows, stride), per);
      }
    }
    MulMonotone(stop, rows, stride);
  }

  /** Cutting the sections of the record gives the sections of its rows. */
  lemma RowSectionsAreSlices(payload: seq<Byte>, spans: Spans, base: nat, half: (Byte, Byte) -> real, rows: nat,
                             cols: nat, config: Config, start: nat, stop: nat)
    requires IsConfig(config, cols) && RowsAreByteAligned(cols, config.bits) && cols % GroupWidth(config, cols) == 0
    requires RecordSections(payload, spans, base, half).Some? && start < stop <= rows
    requires Holds(RecordSections(payload, spans, base, half).value, rows, cols, config)
    ensures
      var stride, groups := PackedLength(cols, config.bits), cols / GroupWidth(config, cols);
      var part := RowSections(payload, spans, base, half, stride, groups, start, stop);
      && part.Some?
      && IsSliceOf(part.value, RecordSections(payload, spans, base, half).value, cols, config, start, stop)
      && Holds(part.value, stop - start, cols, config)
  {
    hide PackedLength, PerByte, GroupsPerRow, PaddedWidth, ReadHalves, Exactly;
    var q := RecordSections(payload, spans, base, half).value;
    var stride, groups := PackedLength(cols, config.bits), cols / GroupWidth(config, cols);
    NoPadding(cols, GroupWidth(config, cols));
    AlignedStride(cols, config.bits);
    ScalesArePositive(payload, base + spans.scales.value.offset, spans.scales.value.length, half);
    PositiveFactors(rows, groups);
    PositiveFactors(stride, PerByte(config.bits));
    RowsOfValues(start, stop, rows, groups);
    RowsOfValues(start, stop, rows, stride);
    ExactLength(payload, base + spans.packed.value.offset, spans.packed.value.length);
    PackedIsLong(rows, stop, stride, |q.packed|, PerByte(config.bits));
    CutOfCut(payload, base + spans.packed.value.offset, spans.packed.value.length, Area(start, stride),
             Area(stop - start, stride));
    HalvesOfCut(payload, base + spans.scales.value.offset, spans.scales.value.length, half, Area(start, groups),
                Area(stop - start, groups));
    if spans.zeros.Some? {
      ScalesArePositive(payload, base + spans.zeros.value.offset, spans.zeros.value.length, half);
      HalvesOfCut(payload, base + spans.zeros.value.offset, spans.zeros.value.length, half, Area(start, groups),
                  Area(stop - start, groups));
    }
    AreaOfArea(stop - start, stride, PerByte(config.bits));
  }

  lemma DequantizeAt(q: Quantized, rows: nat, cols: nat, config: Config, r: nat, c: nat)
    requires IsConfig(config, cols) && Holds(q, rows, cols, config) && r < rows && c < cols
    ensures Dequantize(q, rows, cols, config)[r][c] == DequantAt(q, rows, cols, config, r, c)
  {
    hide DequantAt, Holds;
  }

  /** Naming the resolved group size changes nothing. */
  lemma SameGroupWidth(q: Quantized, rows: nat, cols: nat, config: Config, gs: nat)
    requires IsConfig(config, cols) && gs == GroupWidth(config, cols) && Holds(q, rows, cols, config)
    ensures GroupWidth(config.(groupSize := gs), cols) == gs
    ensures Holds(q, rows, cols, config.(groupSize := gs))
    ensures Dequantize(q, rows, cols, config.(groupSize := gs)) == Dequantize(q, rows, cols, config)
  {
    hide PaddedWidth, GroupsPerRow, CodeOf, RtnMatrix.Decoded, FlatIndex, Dequantize;
    var a, b := Dequantize(q, rows, cols, config.(groupSize := gs)), Dequantize(q, rows, cols, config);
    forall r | 0 <= r < rows ensures a[r] == b[r] {
      forall c | 0 <= c < cols ensures a[r][c] == b[r][c] {
        DequantizeAt(q, rows, cols, config.(groupSize := gs), r, c);
        DequantizeAt(q, rows, cols, config, r, c);
      }
    }
  }

  /** Decoding a slice of the sections is slicing what the sections decode to. */
  lemma SliceThenDequantize(part: Quantized, q: Quantized, rows: nat, cols: nat, config: Config, start: nat, stop: nat)
    requires IsConfig(config, cols) && Holds(q, rows, cols, config) && start <= stop <= rows
    requires RowsAreByteAligned(cols, config.bits) && cols % GroupWidth(config, cols) == 0
    requires IsSliceOf(part, q, cols, config, start, stop) && Holds(part, stop - start, cols, config)
    ensures Dequantize(part, stop - start, cols, config) == Dequantize(q, rows, cols, config)[start..stop]
  {
    hide DequantAt, Dequantize, Holds, IsSliceOf;
    var a, b := Dequantize(part, stop - start, cols, config), Dequantize(q, rows, cols, config);
    forall r | 0 <= r < stop - start ensures a[r] == b[start..stop][r] {
      forall c | 0 <= c < cols ensures a[r][c] == b[start + r][c] {
        DequantizeAt(part, stop - start, cols, config, r, c);
        DequantizeAt(q, rows, cols, config, start + r, c);
        SlicedWeight(part, q, rows, cols, config, start, stop, r, c);
      }
      assert a[r] == b[start + r];
    }
  }

  /** Whether `decode_rows` can serve a non-empty range of a record that decodes. */
  predicate RowsServed(cols: nat, config: Config)
    requires IsConfig(config, cols)
  {
    cols % (8 / config.bits) != 0 || cols % GroupWidth(config, cols) == 0
  }

  /** Row-sliced decoding refines whole decoding, at every width and on both paths: it yields the
      rows of the decoded record, and refuses exactly when rows are byte-aligned under a group
      size that does not divide them. */
  lemma RowsRefineRecord(payload: seq<Byte>, shape: seq<nat>, bits: int, groupSize: int, symmetric: bool, spans: Spans,
                         base: nat, half: (Byte, Byte) -> real, start: nat, stop: nat)
    requires DecodeRecord(payload, shape, bits, groupSize, symmetric, spans, base, half).Ok?
    requires bits < 16 && start < stop <= MatrixDims(shape).0
    ensures IsConfig(Config(bits, groupSize, symmetric), MatrixDims(shape).1)
    ensures |DecodeRecord(payload, shape, bits, groupSize, symmetric, spans, base, half).rows| == MatrixDims(shape).0
    ensures DecodeRows(payload, shape, bits, groupSize, symmetric, spans, base, half, start, stop) ==
      if RowsServed(MatrixDims(shape).1, Config(bits, groupSize, symmetric))
      then Ok(DecodeRecord(payload, shape, bits, groupSize, symmetric, spans, base, half).rows[start..stop])
      else DecodeError
  {
    hide Dequantize, Holds, Exactly, ReadHalves, RowSections, RecordSections, IsSliceOf, MatrixDims;
    var (rows, cols) := MatrixDims(shape);
    var config := Config(bits, groupSize, symmetric);
    RecordIsSections(payload, shape, bits, groupSize, symmetric, spans, base, half);
    if RowsAreByteAligned(cols, bits) {
      RowsAreSections(payload, shape, bits, groupSize, symmetric, spans, base, half, start, stop);
      var gs := GroupWidth(config, cols);
      if cols % gs == 0 {
        var q := RecordSections(payload, spans, base, half).value;
        RowSectionsAreSlices(payload, spans, base, half, rows, cols, config, start, stop);
        var part := RowSections(payload, spans, base, half, PackedLength(cols, bits), cols / gs, start, stop).value;
        SameGroupWidth(part, stop - start, cols, config, gs);
        SliceThenDequantize(part, q, rows, cols, config, start, stop);
      }
    }
  }

  /** Verbatim half-precision records slice alike. */
  lemma RowsRefineVerbatim(payload: seq<Byte>, shape: seq<nat>, bits: int, groupSize: int, symmetric: bool,
                           spans: Spans, base: nat, half: (Byte, Byte) -> real, start: nat, stop: nat)
    requires DecodeRecord(payload, shape, bits, groupSize, symmetric, spans, base, half).Ok?
    requires bits >= 16 && start < stop <= MatrixDims(shape).0
    ensures |DecodeRecord(payload, shape, bits, groupSize, symmetric, spans, base, half).rows| == MatrixDims(shape).0
    ensures DecodeRows(payload, shape, bits, groupSize, symmetric, spans, base, half, start, stop)
      == Ok(DecodeRecord(payload, shape, bits, groupSize, symmetric, spans, base, half).rows[start..stop])
  {
    hide ReadHalves, MatrixDims;
    var (rows, cols) := MatrixDims(shape);
    var length := Area(rows, cols) * 2;
    ScalesArePositive(payload, base, length, half);
    PositiveFactors(rows, cols);
    RowsOfValues(start, stop, rows, cols);
    HalvesOfCut(payload, base, length, half, Area(start, cols), Area(stop - start, cols));
    var all := ReadHalves(payload, base, length, half).value;
    var part := ReadHalves(payload, base + Area(start, cols * 2), Area(stop - start, cols * 2), half).value;
    VerbatimSlice(all, part, rows, cols, start, stop);
  }

  lemma VerbatimSlice(all: seq<real>, part: seq<real>, rows: nat, cols: nat, start: nat, stop: nat)
    requires start <= stop <= rows && |all| == Area(rows, cols)
    requires Area(start, cols) + Area(stop - start, cols) <= |all|
    requires part == all[Area(start, cols)..Area(start, cols) + Area(stop - start, cols)]
    ensures AsRows(part, stop - start, cols) == AsRows(all, rows, cols)[start..stop]
  {
    var a, b := AsRows(part, stop - start, cols), AsRows(all, rows, cols);
    forall r | 0 <= r < stop - start ensures a[r] == b[start..stop][r] {
      forall c | 0 <= c < cols ensures a[r][c] == b[start + r][c] {
        ShiftedIndex(start, r, cols, c);
        RowFits(r, stop - start, c, cols);
      }
      assert a[r] == b[start + r];
    }
  }
}
