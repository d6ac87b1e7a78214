/** Quantising a matrix in row tiles that fit the memory budget. */
module Tiling {
  import opened Collections
  import opened Matrices
  import opened Packing
  import opened RtnMatrix

  function Min(a: int, b: int): int {
    if a < b then a else b
  }

  /** Rows per tile, given how many rows the budget would hold: at least 32, then a multiple of
      64, never more than there are. */
  function TileRows(rows: nat, budgetRows: int): (n: nat)
    ensures rows > 0 ==> n > 0
    ensures n <= rows
    ensures n < rows ==> n % 64 == 0 && n >= 64 && (n == 64 || n <= budgetRows) && budgetRows < n + 64
  {
    Min(rows, Max(64, Max(32, budgetRows) / 64 * 64))
  }

  lemma PowersDivide(m: nat, p: nat)
    requires p in {1, 2, 4, 8}
    ensures (64 * m) % p == 0
  {
    var k := if p == 1 then 64 * m else if p == 2 then 32 * m else if p == 4 then 16 * m else 8 * m;
    SplitIndex(k, 0, p);
  }

  lemma PerByteIsPower(bits: int)
    requires IsWidth(bits)
    ensures PerByte(bits) in {1, 2, 4, 8}
  {
  }

  /** A run of rows that is a multiple of 64 long ends on a byte boundary, whatever its width. */
  lemma TilesEndOnBytes(rows: nat, n: nat, bits: int)
    requires IsWidth(bits) && rows % 64 == 0
    ensures Area(rows, n) % PerByte(bits) == 0
  {
    hide PerByte;
    var m := rows / 64 * n;
    assert Area(rows, n) == 64 * m by {
      assert rows == 64 * (rows / 64);
    }
    MulMonotone(0, rows / 64, n);
    PerByteIsPower(bits);
    PowersDivide(m, PerByte(bits));
  }

  lemma CodesOfTwo(a: seq<seq<real>>, b: seq<seq<real>>, cols: nat, config: Config, round: real -> int)
    requires IsMatrix(a, cols, config) && IsMatrix(b, cols, config)
    ensures IsMatrix(a + b, cols, config)
    ensures Flatten(Codes(a + b, cols, config, round))
      == Flatten(Codes(a, cols, config, round)) + Flatten(Codes(b, cols, config, round))
    ensures Flatten(Scales(a + b, cols, config, round))
      == Flatten(Scales(a, cols, config, round)) + Flatten(Scales(b, cols, config, round))
    ensures Flatten(ZeroPoints(a + b, cols, config, round))
      == Flatten(ZeroPoints(a, cols, config, round)) + Flatten(ZeroPoints(b, cols, config, round))
  {
    hide RowCodes, RowScales, RowZeros, Flatten;
    assert Codes(a + b, cols, config, round) == Codes(a, cols, config, round) + Codes(b, cols, config, round);
    assert Scales(a + b, cols, config, round) == Scales(a, cols, config, round) + Scales(b, cols, config, round);
    assert ZeroPoints(a + b, cols, config, round)
      == ZeroPoints(a, cols, config, round) + ZeroPoints(b, cols, config, round);
    FlattenConcat(Codes(a, cols, config, round), Codes(b, cols, config, round));
    FlattenConcat(Scales(a, cols, config, round), Scales(b, cols, config, round));
    FlattenConcat(ZeroPoints(a, cols, config, round), ZeroPoints(b, cols, config, round));
  }

  /** The sections of two results, end to end. */
  function Joined(a: Quantized, b: Quantized): Quantized
    requires a.zeros.Some? <==> b.zeros.Some?
  {
    Quantized(a.packed + b.packed, a.scales + b.scales,
              if a.zeros.Some? then Some(a.zeros.value + b.zeros.value) else None)
  }

  /** Rows that end on a byte boundary can be quantised apart from the rest. */
  lemma QuantizeInTwo(a: seq<seq<real>>, b: seq<seq<real>>, cols: nat, config: Config, round: real -> int)
    requires IsMatrix(a, cols, config) && IsMatrix(b, cols, config) && |a| % 64 == 0
    ensures IsMatrix(a + b, cols, config)
    ensures Quantize(a + b, cols, config, round)
      == Joined(Quantize(a, cols, config, round), Quantize(b, cols, config, round))
  {
    hide Pack, Codes, Scales, ZeroPoints, Flatten, PaddedWidth, PerByte;
    CodesOfTwo(a, b, cols, config, round);
    TilesEndOnBytes(|a|, PaddedWidth(cols, GroupWidth(config, cols)), config.bits);
    FlattenLength(Codes(a, cols, config, round), PaddedWidth(cols, GroupWidth(config, cols)));
    PackConcat(Flatten(Codes(a, cols, config, round)), Flatten(Codes(b, cols, config, round)), config.bits);
  }

  /** Nothing quantised yet. */
  function Empty(config: Config): Quantized {
    Quantized([], [], if config.symmetric then None else Some([]))
  }

  lemma QuantizeNothing(cols: nat, config: Config, round: real -> int)
    requires IsMatrix([], cols, config)
    ensures Quantize([], cols, config, round) == Empty(config)
  {
  }

  /** `quantize_matrix`: whole, or tile by tile; the emitted sections are the same. Only an empty
      matrix that is thought to need tiling fails, on a division by zero. */
  method QuantizeMatrix(w: seq<seq<real>>, cols: nat, config: Config, round: real -> int, needsTiling: bool,
                        budgetRows: int)
    returns (result: Option<Quantized>)
    requires IsMatrix(w, cols, config)
    ensures result == if needsTiling && w == [] then None else Some(Quantize(w, cols, config, round))
  {
    if needsTiling && w == [] {
      return None;
    }
    var tileRows := TileRows(|w|, budgetRows);
    if !needsTiling || tileRows == |w| {
      return Some(Quantize(w, cols, config, round));
    }
    var sofar := QuantizeTiles(w, cols, config, round, tileRows);
    return Some(sofar);
  }

  method QuantizeTiles(w: seq<seq<real>>, cols: nat, config: Config, round: real -> int, tileRows: nat)
    returns (sofar: Quantized)
    requires IsMatrix(w, cols, config) && 0 < tileRows && tileRows % 64 == 0
    ensures sofar == Quantize(w, cols, config, round)
  {
    hide Quantize;
    sofar := Empty(config);
    QuantizeNothing(cols, config, round);
    var start := 0;
    assert w[..0] == [];
    while start < |w|
      invariant 0 <= start <= |w| && (start < |w| ==> start % 64 == 0)
      invariant sofar == Quantize(w[..start], cols, config, round)
      invariant sofar.zeros.Some? <==> !config.symmetric
    {
      var end := Min(|w|, start + tileRows);
      var tile := Quantize(w[start..end], cols, config, round);
      ZerosWhenAsymmetric(w[start..end], cols, config, round);
      QuantizeInTwo(w[..start], w[start..end], cols, config, round);
      assert w[..start] + w[start..end] == w[..end];
      sofar, start := Joined(sofar, tile), end;
    }
    assert w[..start] == w;
  }

  lemma ZerosWhenAsymmetric(w: seq<seq<real>>, cols: nat, config: Config, round: real -> int)
    requires IsMatrix(w, cols, config)
    ensures Quantize(w, cols, config, round).zeros.Some? <==> !config.symmetric
  {
  }
}
