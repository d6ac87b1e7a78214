/** The low-bit matrix-vector kernels over the reals, against dequantise-then-multiply. */
module Kernels {
  import opened Collections
  import opened Matrices
  import opened Packing
  import opened Rtn
  import opened RtnMatrix
  import opened Decode

  // ---------------------------------------------------------------- sums

  function SumTo(f: nat -> real, n: nat): real {
    if n == 0 then 0.0 else SumTo(f, n - 1) + f(n - 1)
  }

  lemma {:induction false} SumSame(f: nat -> real, g: nat -> real, n: nat)
    requires forall i: nat :: i < n ==> f(i) == g(i)
    ensures SumTo(f, n) == SumTo(g, n)
  {
    if n > 0 {
      SumSame(f, g, n - 1);
    }
  }

  lemma {:induction false} SumScaled(f: nat -> real, g: nat -> real, k: real, n: nat)
    requires forall i: nat :: i < n ==> g(i) == f(i) * k
    ensures SumTo(g, n) == SumTo(f, n) * k
  {
    if n > 0 {
      SumScaled(f, g, k, n - 1);
      assert (SumTo(f, n - 1) + f(n - 1)) * k == SumTo(f, n - 1) * k + f(n - 1) * k;
    }
  }

  /** The terms of `f` from `start` on. */
  function From(f: nat -> real, start: nat): nat -> real {
    (i: nat) => f(start + i)
  }

  lemma {:induction false} SumConcat(f: nat -> real, m: nat, n: nat)
    ensures SumTo(f, m + n) == SumTo(f, m) + SumTo(From(f, m), n)
  {
    if n > 0 {
      SumConcat(f, m, n - 1);
    }
  }

  /** Group sums, one per group of `gs` terms. */
  function Grouped(f: nat -> real, gs: nat): nat -> real {
    (g: nat) => SumTo(From(f, Area(g, gs)), gs)
  }

  /** A sum is the sum of its group sums. */
  lemma {:induction false} SumOfGroups(f: nat -> real, groups: nat, gs: nat)
    ensures SumTo(f, Area(groups, gs)) == SumTo(Grouped(f, gs), groups)
  {
    if groups > 0 {
      SumOfGroups(f, groups - 1, gs);
      assert groups * gs == (groups - 1) * gs + gs;
      SumConcat(f, Area(groups - 1, gs), gs);
    }
  }

  // ---------------------------------------------------------------- the kernels

  /** `x . w`. */
  function Dot(x: seq<real>, w: seq<real>): real
    requires |x| == |w|
  {
    SumTo((c: nat) => if c < |x| then x[c] * w[c] else 0.0, |x|)
  }

  /** One quantised row as a kernel receives it. */
  datatype KernelRow = KernelRow(bytes: seq<bv8>, scales: seq<real>, zeros: Option<seq<real>>)

  /** The shapes the kernels accept: whole groups, and rows of whole bytes. */
  predicate Accepts(row: KernelRow, bits: int, cols: nat, gs: int) {
    && IsWidth(bits) && gs > 0 && cols % gs == 0
    && |row.bytes| * PerByte(bits) == cols
    && |row.scales| == cols / gs
    && (row.zeros.Some? ==> |row.zeros.value| == cols / gs)
  }

  /** `symmetric_offset`. */
  function SymmetricOffset(bits: int): int
    requires IsWidth(bits)
  {
    MaxInt(bits) / 2
  }

  lemma CodeInRow(row: KernelRow, bits: int, cols: nat, gs: int, c: nat)
    requires Accepts(row, bits, cols, gs) && c < cols
    ensures c / PerByte(bits) < |row.bytes| && c / gs < |row.scales|
  {
    QuotientBelow(c, PerByte(bits), |row.bytes|);
    JoinIndex(cols, gs);
    QuotientBelow(c, gs, cols / gs);
  }

  /** The zero point of column `c`. */
  function ZeroAt(row: KernelRow, bits: int, cols: nat, gs: int, c: nat): real
    requires Accepts(row, bits, cols, gs) && c < cols
  {
    CodeInRow(row, bits, cols, gs, c);
    if row.zeros.Some? then row.zeros.value[c / gs] else SymmetricOffset(bits) as real
  }

  function CentredCode(code: bv8, zero: real): real {
    code as int as real - zero
  }

  lemma DecodedIsScaled(code: bv8, zero: real, scale: real)
    ensures RtnMatrix.Decoded(code, zero, scale) == CentredCode(code, zero) * scale
  {
  }

  /** A code less its zero point. */
  function CentredAt(row: KernelRow, bits: int, cols: nat, gs: int, c: nat): real
    requires Accepts(row, bits, cols, gs) && c < cols
  {
    CodeInRow(row, bits, cols, gs, c);
    CentredCode(CodeOf(row.bytes, bits, c), ZeroAt(row, bits, cols, gs, c))
  }

  /** `centred_weights`. */
  function Centred(row: KernelRow, bits: int, cols: nat, gs: int): nat -> real
    requires Accepts(row, bits, cols, gs)
  {
    (c: nat) => if c >= cols then 0.0 else CentredAt(row, bits, cols, gs, c)
  }

  function ScaleOf(row: KernelRow): nat -> real {
    (g: nat) => if g < |row.scales| then row.scales[g] else 0.0
  }

  function ActivationOf(x: seq<real>): nat -> real {
    (c: nat) => if c < |x| then x[c] else 0.0
  }

  function Product(f: nat -> real, g: nat -> real): nat -> real {
    (c: nat) => f(c) * g(c)
  }

  /** The scale of the group of each column. */
  function Spread(scale: nat -> real, gs: nat): nat -> real
    requires gs > 0
  {
    (c: nat) => scale(c / gs)
  }

  /** `forward_int4_gemv`, `forward_int2_gemv`: per group, a dot product with the centred codes,
      scaled once. */
  function Gemv(x: seq<real>, row: KernelRow, bits: int, gs: int): real
    requires Accepts(row, bits, |x|, gs)
  {
    SumTo(Product(Grouped(Product(ActivationOf(x), Centred(row, bits, |x|, gs)), gs), ScaleOf(row)), |x| / gs)
  }

  /** `forward_int4_fma`: the scale is folded into the activations first. */
  function Fma(x: seq<real>, row: KernelRow, bits: int, gs: int): real
    requires Accepts(row, bits, |x|, gs)
  {
    SumTo(Grouped(Product(Centred(row, bits, |x|, gs), Product(ActivationOf(x), Spread(ScaleOf(row), gs))), gs),
          |x| / gs)
  }

  // ---------------------------------------------------------------- against dequantisation

  /** Scaling a group's dot product is scaling its terms. */
  lemma ScaledGroup(f: nat -> real, scale: nat -> real, gs: nat, g: nat)
    requires gs > 0
    ensures Grouped(Product(f, Spread(scale, gs)), gs)(g) == Grouped(f, gs)(g) * scale(g)
  {
    var start := Area(g, gs);
    var terms, scaled := From(f, start), From(Product(f, Spread(scale, gs)), start);
    forall i: nat | i < gs ensures scaled(i) == terms(i) * scale(g) {
      SplitIndex(g, i, gs);
    }
    SumScaled(terms, scaled, scale(g), gs);
  }

  lemma ScaledGroups(f: nat -> real, scale: nat -> real, gs: nat, groups: nat)
    requires gs > 0
    ensures SumTo(Product(Grouped(f, gs), scale), groups) == SumTo(Product(f, Spread(scale, gs)), Area(groups, gs))
  {
    forall g: nat | g < groups
      ensures Product(Grouped(f, gs), scale)(g) == Grouped(Product(f, Spread(scale, gs)), gs)(g)
    {
      ScaledGroup(f, scale, gs, g);
    }
    SumSame(Product(Grouped(f, gs), scale), Grouped(Product(f, Spread(scale, gs)), gs), groups);
    SumOfGroups(Product(f, Spread(scale, gs)), groups, gs);
  }

  /** What both kernels compute: each activation times its centred code times its group's scale. */
  function Terms(x: seq<real>, row: KernelRow, bits: int, gs: int): nat -> real
    requires Accepts(row, bits, |x|, gs)
  {
    Product(Product(ActivationOf(x), Centred(row, bits, |x|, gs)), Spread(ScaleOf(row), gs))
  }

  lemma WholeGroups(cols: nat, gs: nat)
    requires gs > 0 && cols % gs == 0
    ensures Area(cols / gs, gs) == cols
  {
    JoinIndex(cols, gs);
  }

  lemma GemvIsTerms(x: seq<real>, row: KernelRow, bits: int, gs: int)
    requires Accepts(row, bits, |x|, gs)
    ensures Gemv(x, row, bits, gs) == SumTo(Terms(x, row, bits, gs), |x|)
  {
    WholeGroups(|x|, gs);
    ScaledGroups(Product(ActivationOf(x), Centred(row, bits, |x|, gs)), ScaleOf(row), gs, |x| / gs);
  }

  lemma Reassociate(x: real, w: real, s: real)
    ensures w * (x * s) == x * w * s && x * (w * s) == x * w * s
  {
  }

  lemma FoldedScale(a: nat -> real, w: nat -> real, s: nat -> real, c: nat)
    ensures Product(w, Product(a, s))(c) == Product(Product(a, w), s)(c)
  {
    Reassociate(a(c), w(c), s(c));
  }

  lemma FmaIsTerms(x: seq<real>, row: KernelRow, bits: int, gs: int)
    requires Accepts(row, bits, |x|, gs)
    ensures Fma(x, row, bits, gs) == SumTo(Terms(x, row, bits, gs), |x|)
  {
    hide Product, Centred, ActivationOf, Spread, ScaleOf, Grouped;
    var a, w, s := ActivationOf(x), Centred(row, bits, |x|, gs), Spread(ScaleOf(row), gs);
    WholeGroups(|x|, gs);
    SumOfGroups(Product(w, Product(a, s)), |x| / gs, gs);
    forall c: nat | c < |x| ensures Product(w, Product(a, s))(c) == Product(Product(a, w), s)(c) {
      FoldedScale(a, w, s, c);
    }
    SumSame(Product(w, Product(a, s)), Product(Product(a, w), s), |x|);
  }

  /** Row `r` of a record whose rows are whole bytes, as the kernels view it. */
  ghost predicate IsRowOf(row: KernelRow, q: Quantized, cols: nat, config: Config, r: nat)
    requires IsConfig(config, cols)
  {
    var part := Quantized(row.bytes, row.scales, row.zeros);
    IsSliceOf(part, q, cols, config, r, r + 1)
  }

  lemma RowIsAccepted(row: KernelRow, q: Quantized, rows: nat, cols: nat, config: Config, r: nat)
    requires IsConfig(config, cols) && Holds(q, rows, cols, config) && r < rows && IsRowOf(row, q, cols, config, r)
    requires RowsAreByteAligned(cols, config.bits) && cols % GroupWidth(config, cols) == 0
    ensures Accepts(row, config.bits, cols, GroupWidth(config, cols))
    ensures Holds(Quantized(row.bytes, row.scales, row.zeros), 1, cols, config)
  {
    hide PackedLength, PerByte, GroupsPerRow;
    var gs := GroupWidth(config, cols);
    NoPadding(cols, gs);
    AlignedStride(cols, config.bits);
    RowsOfValues(r, r + 1, r + 1, PackedLength(cols, config.bits));
    RowsOfValues(r, r + 1, r + 1, cols / gs);
  }

  /** The dequantised weight of column `c`. */
  function WeightAt(row: KernelRow, bits: int, cols: nat, gs: int, c: nat): real
    requires Accepts(row, bits, cols, gs) && c < cols
  {
    CodeInRow(row, bits, cols, gs, c);
    RtnMatrix.Decoded(CodeOf(row.bytes, bits, c), ZeroAt(row, bits, cols, gs, c), row.scales[c / gs])
  }

  lemma WeightIsCentredScaled(row: KernelRow, bits: int, cols: nat, gs: int, c: nat)
    requires Accepts(row, bits, cols, gs) && c < cols
    ensures c / gs < |row.scales|
    ensures WeightAt(row, bits, cols, gs, c) == CentredAt(row, bits, cols, gs, c) * row.scales[c / gs]
  {
    hide CodeOf, PerByte, ZeroAt, CentredCode, RtnMatrix.Decoded;
    CodeInRow(row, bits, cols, gs, c);
    DecodedIsScaled(CodeOf(row.bytes, bits, c), ZeroAt(row, bits, cols, gs, c), row.scales[c / gs]);
  }

  lemma TermFactors(x: seq<real>, row: KernelRow, bits: int, gs: int, c: nat)
    requires Accepts(row, bits, |x|, gs) && c < |x|
    ensures c / gs < |row.scales|
    ensures Terms(x, row, bits, gs)(c) == x[c] * CentredAt(row, bits, |x|, gs, c) * row.scales[c / gs]
  {
    hide CentredAt, PerByte;
    CodeInRow(row, bits, |x|, gs, c);
  }

  lemma TermValue(x: seq<real>, row: KernelRow, bits: int, gs: int, c: nat)
    requires Accepts(row, bits, |x|, gs) && c < |x|
    ensures Terms(x, row, bits, gs)(c) == x[c] * WeightAt(row, bits, |x|, gs, c)
  {
    hide WeightAt, CentredAt, Terms;
    WeightIsCentredScaled(row, bits, |x|, gs, c);
    TermFactors(x, row, bits, gs, c);
    Reassociate(x[c], CentredAt(row, bits, |x|, gs, c), row.scales[c / gs]);
  }

  lemma RowWeight(row: KernelRow, cols: nat, config: Config, c: nat)
    requires IsConfig(config, cols) && RowsAreByteAligned(cols, config.bits) && cols % GroupWidth(config, cols) == 0
    requires Accepts(row, config.bits, cols, GroupWidth(config, cols)) && c < cols
    requires Holds(Quantized(row.bytes, row.scales, row.zeros), 1, cols, config)
    ensures DequantAt(Quantized(row.bytes, row.scales, row.zeros), 1, cols, config, 0, c)
      == WeightAt(row, config.bits, cols, GroupWidth(config, cols), c)
  {
    hide CodeOf, PerByte, GroupsPerRow, PaddedWidth, RtnMatrix.Decoded, MaxInt, Holds;
    var gs := GroupWidth(config, cols);
    NoPadding(cols, gs);
    CodeInRow(row, config.bits, cols, gs, c);
  }

  lemma TermIsProduct(x: seq<real>, row: KernelRow, q: Quantized, rows: nat, config: Config, r: nat, c: nat)
    requires IsConfig(config, |x|) && Holds(q, rows, |x|, config) && r < rows && IsRowOf(row, q, |x|, config, r)
    requires RowsAreByteAligned(|x|, config.bits) && |x| % GroupWidth(config, |x|) == 0 && c < |x|
    requires Accepts(row, config.bits, |x|, GroupWidth(config, |x|))
    ensures Terms(x, row, config.bits, GroupWidth(config, |x|))(c) == x[c] * DequantAt(q, rows, |x|, config, r, c)
  {
    hide CodeOf, IsSliceOf, PackedLength, PerByte, Holds, DequantAt, Terms, WeightAt, Accepts;
    RowIsAccepted(row, q, rows, |x|, config, r);
    SlicedWeight(Quantized(row.bytes, row.scales, row.zeros), q, rows, |x|, config, r, r + 1, 0, c);
    RowWeight(row, |x|, config, c);
    TermValue(x, row, config.bits, GroupWidth(config, |x|), c);
  }

  /** Both kernels, on every byte-aligned row of a record whose groups divide it, compute the
      exact product of the activations with the dequantised row. */
  lemma KernelsMultiply(x: seq<real>, row: KernelRow, q: Quantized, rows: nat, config: Config, r: nat)
    requires IsConfig(config, |x|) && Holds(q, rows, |x|, config) && r < rows && IsRowOf(row, q, |x|, config, r)
    requires RowsAreByteAligned(|x|, config.bits) && |x| % GroupWidth(config, |x|) == 0
    ensures Accepts(row, config.bits, |x|, GroupWidth(config, |x|))
    ensures Gemv(x, row, config.bits, GroupWidth(config, |x|)) == Dot(x, Dequantize(q, rows, |x|, config)[r])
    ensures Fma(x, row, config.bits, GroupWidth(config, |x|)) == Dot(x, Dequantize(q, rows, |x|, config)[r])
  {
    hide Terms, Gemv, Fma, DequantAt, Holds, IsSliceOf, Dequantize;
    var gs := GroupWidth(config, |x|);
    RowIsAccepted(row, q, rows, |x|, config, r);
    GemvIsTerms(x, row, config.bits, gs);
    FmaIsTerms(x, row, config.bits, gs);
    var w := Dequantize(q, rows, |x|, config)[r];
    var products := (c: nat) => if c < |x| then x[c] * w[c] else 0.0;
    forall c: nat | c < |x| ensures Terms(x, row, config.bits, gs)(c) == products(c) {
      TermIsProduct(x, row, q, rows, config, r, c);
      DequantizeAt(q, rows, |x|, config, r, c);
    }
    SumSame(Terms(x, row, config.bits, gs), products, |x|);
  }
}
