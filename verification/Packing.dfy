/** Sub-byte codes: `8 / bits` fields to a byte, least significant first. */
module Packing {
  import opened Collections
  import opened Matrices

  // ---------------------------------------------------------------- codes as bytes

  /** `.to(uint8)`. */
  function ByteOf(code: int): bv8
    requires 0 <= code < 256
  {
    code as bv8
  }

  lemma NextByte(b: bv8)
    requires b != 255
    ensures (b + 1) as int == b as int + 1
  {
  }

  lemma {:induction false} SomeByte(code: int) returns (b: bv8)
    requires 0 <= code < 256
    ensures b as int == code
  {
    if code == 0 {
      b := 0;
    } else {
      var c := SomeByte(code - 1);
      assert c != 255;
      NextByte(c);
      b := c + 1;
    }
  }

  lemma ByteReadsBack(code: int)
    requires 0 <= code < 256
    ensures ByteOf(code) as int == code
  {
    var b := SomeByte(code);
    assert b as int as bv8 == b;
  }

  lemma BytesCompare(a: bv8, b: bv8)
    ensures a <= b <==> a as int <= b as int
  {
  }

  // ---------------------------------------------------------------- fields

  predicate IsWidth(bits: int) {
    1 <= bits <= 8
  }

  function PerByte(bits: int): (n: nat)
    requires IsWidth(bits)
    ensures 1 <= n <= 8 && n * bits <= 8
  {
    8 / bits
  }

  /** `(1 << bits) - 1`. */
  function Mask(bits: int): bv8 {
    if bits == 1 then 1 else if bits == 2 then 3 else if bits == 3 then 7 else if bits == 4 then 15
    else if bits == 5 then 31 else if bits == 6 then 63 else if bits == 7 then 127 else 255
  }

  function ShiftLeft(x: bv8, n: int): bv8 {
    if n == 0 then x else if n == 1 then x << 1 else if n == 2 then x << 2 else if n == 3 then x << 3
    else if n == 4 then x << 4 else if n == 5 then x << 5 else if n == 6 then x << 6 else if n == 7 then x << 7 else 0
  }

  function ShiftRight(x: bv8, n: int): bv8 {
    if n == 0 then x else if n == 1 then x >> 1 else if n == 2 then x >> 2 else if n == 3 then x >> 3
    else if n == 4 then x >> 4 else if n == 5 then x >> 5 else if n == 6 then x >> 6 else if n == 7 then x >> 7 else 0
  }

  lemma TopField(acc: bv8, code: bv8, bits: int, s: int)
    requires IsWidth(bits) && 0 <= s && s + bits <= 8 && ShiftRight(acc, s) == 0 && code <= Mask(bits)
    ensures ShiftRight(acc | ShiftLeft(code, s), s) & Mask(bits) == code
    ensures ShiftRight(acc | ShiftLeft(code, s), s + bits) == 0
  {
  }

  lemma LowerBit(acc: bv8, code: bv8, s: int, t: int)
    requires 0 <= t < s < 8
    ensures ShiftRight(acc | ShiftLeft(code, s), t) & 1 == ShiftRight(acc, t) & 1
  {
  }

  lemma LowerPair(acc: bv8, code: bv8, s: int, t: int)
    requires 0 <= t && t + 2 <= s <= 6
    ensures ShiftRight(acc | ShiftLeft(code, s), t) & 3 == ShiftRight(acc, t) & 3
  {
  }

  lemma LowerTriple(acc: bv8, code: bv8, s: int, t: int)
    requires 0 <= t && t + 3 <= s <= 5
    ensures ShiftRight(acc | ShiftLeft(code, s), t) & 7 == ShiftRight(acc, t) & 7
  {
  }

  lemma LowerNibble(acc: bv8, code: bv8)
    ensures ShiftRight(acc | ShiftLeft(code, 4), 0) & 15 == ShiftRight(acc, 0) & 15
  {
  }

  /** A field placed higher up does not disturb the ones below. */
  lemma LowerField(acc: bv8, code: bv8, bits: int, s: int, t: int)
    requires IsWidth(bits) && 0 <= t && t + bits <= s && s + bits <= 8
    ensures ShiftRight(acc | ShiftLeft(code, s), t) & Mask(bits) == ShiftRight(acc, t) & Mask(bits)
  {
    hide ShiftLeft, ShiftRight;
    if bits == 1 {
      LowerBit(acc, code, s, t);
    } else if bits == 2 {
      LowerPair(acc, code, s, t);
    } else if bits == 3 {
      LowerTriple(acc, code, s, t);
    } else {
      LowerNibble(acc, code);
    }
  }

  /** Codes past the end are the zero padding. */
  function CodeAt(codes: seq<bv8>, j: int): bv8
    requires 0 <= j
  {
    if j < |codes| then codes[j] else 0
  }

  /** Put `n` codes one after another, from `zero`. */
  function Gather<R>(place: (R, R, nat) -> R, zero: R, code: nat -> R, n: nat): R {
    if n == 0 then zero else place(Gather(place, zero, code, n - 1), code(n - 1), n - 1)
  }

  /** If a code placed above all others reads back and hides nothing below, every code reads back. */
  lemma {:induction false} GatherReads<R(!new)>(place: (R, R, nat) -> R, read: (R, nat) -> R, clear: (R, nat) -> bool,
                                                zero: R, code: nat -> R, n: nat, i: nat)
    requires clear(zero, 0)
    requires forall acc, k: nat {:trigger place(acc, code(k), k)} :: k < n && clear(acc, k) ==>
      read(place(acc, code(k), k), k) == code(k) && clear(place(acc, code(k), k), k + 1)
    requires forall acc, k: nat, j: nat {:trigger read(place(acc, code(k), k), j)} :: j < k < n ==>
      read(place(acc, code(k), k), j) == read(acc, j)
    ensures clear(Gather(place, zero, code, n), n)
    ensures i < n ==> read(Gather(place, zero, code, n), i) == code(i)
  {
    if n > 0 {
      GatherReads(place, read, clear, zero, code, n - 1, i);
    }
  }

  lemma {:induction false} GatherSame<R>(place: (R, R, nat) -> R, zero: R, a: nat -> R, b: nat -> R, n: nat)
    requires forall i: nat :: i < n ==> a(i) == b(i)
    ensures Gather(place, zero, a, n) == Gather(place, zero, b, n)
  {
    if n > 0 {
      GatherSame(place, zero, a, b, n - 1);
    }
  }

  function Placing(bits: int): (bv8, bv8, nat) -> bv8 {
    (acc, code, i: nat) => acc | ShiftLeft(code, i * bits)
  }

  function Reading(bits: int): (bv8, nat) -> bv8 {
    (byte, i: nat) => ShiftRight(byte, i * bits) & Mask(bits)
  }

  function Clear(bits: int): (bv8, nat) -> bool {
    (byte, i: nat) => ShiftRight(byte, i * bits) == 0
  }

  function Window(codes: seq<bv8>, from: nat): nat -> bv8 {
    (i: nat) => CodeAt(codes, from + i)
  }

  /** The first `n` fields of a byte whose codes start at `from`. */
  function Fields(codes: seq<bv8>, bits: int, from: nat, n: nat): bv8 {
    Gather(Placing(bits), 0, Window(codes, from), n)
  }

  function PackedLength(n: nat, bits: int): nat
    requires IsWidth(bits)
  {
    (n + PerByte(bits) - 1) / PerByte(bits)
  }

  function Pack(codes: seq<bv8>, bits: int): seq<bv8>
    requires IsWidth(bits)
  {
    seq(PackedLength(|codes|, bits), k requires 0 <= k => Fields(codes, bits, k * PerByte(bits), PerByte(bits)))
  }

  /** Field `j` of packed bytes. */
  function CodeOf(packed: seq<bv8>, bits: int, j: nat): bv8
    requires IsWidth(bits) && j / PerByte(bits) < |packed|
  {
    ShiftRight(packed[j / PerByte(bits)], j % PerByte(bits) * bits) & Mask(bits)
  }

  function Unpack(packed: seq<bv8>, bits: int, n: nat): seq<bv8>
    requires IsWidth(bits) && n <= |packed| * PerByte(bits)
  {
    seq(n, j requires 0 <= j < n => (QuotientBelow(j, PerByte(bits), |packed|); CodeOf(packed, bits, j)))
  }

  ghost predicate AreCodes(codes: seq<bv8>, bits: int) {
    forall j :: 0 <= j < |codes| ==> codes[j] <= Mask(bits)
  }

  lemma PlacedReads(acc: bv8, code: bv8, bits: int, k: nat)
    requires IsWidth(bits) && k < PerByte(bits) && Clear(bits)(acc, k) && code <= Mask(bits)
    ensures Reading(bits)(Placing(bits)(acc, code, k), k) == code && Clear(bits)(Placing(bits)(acc, code, k), k + 1)
  {
    hide ShiftLeft, ShiftRight, Mask;
    var s, e := k * bits, (k + 1) * bits;
    MulMonotone(k + 1, PerByte(bits), bits);
    assert e == s + bits;
    TopField(acc, code, bits, s);
  }

  lemma PlacedKeeps(acc: bv8, code: bv8, bits: int, k: nat, j: nat)
    requires IsWidth(bits) && j < k < PerByte(bits)
    ensures Reading(bits)(Placing(bits)(acc, code, k), j) == Reading(bits)(acc, j)
  {
    var s, t := k * bits, j * bits;
    MulMonotone(k + 1, PerByte(bits), bits);
    MulMonotone(j + 1, k, bits);
    assert (k + 1) * bits == s + bits && (j + 1) * bits == t + bits;
    LowerField(acc, code, bits, s, t);
  }

  lemma ClearedByte(bits: int)
    ensures Clear(bits)(0, 0) && 0 <= Mask(bits)
  {
  }

  lemma FieldsRead(codes: seq<bv8>, bits: int, from: nat, i: nat)
    requires IsWidth(bits) && AreCodes(codes, bits) && i < PerByte(bits)
    ensures Reading(bits)(Fields(codes, bits, from, PerByte(bits)), i) == CodeAt(codes, from + i)
  {
    ClearedByte(bits);
    hide ShiftLeft, ShiftRight, Mask, PerByte, Placing, Reading, Clear;
    var place, read, clear, code := Placing(bits), Reading(bits), Clear(bits), Window(codes, from);
    forall acc, k: nat | k < PerByte(bits) && clear(acc, k)
      ensures read(place(acc, code(k), k), k) == code(k) && clear(place(acc, code(k), k), k + 1)
    {
      assert code(k) == CodeAt(codes, from + k) <= Mask(bits);
      PlacedReads(acc, code(k), bits, k);
    }
    forall acc, k: nat, j: nat | j < k < PerByte(bits) ensures read(place(acc, code(k), k), j) == read(acc, j) {
      PlacedKeeps(acc, code(k), bits, k, j);
    }
    GatherReads(place, read, clear, 0, code, PerByte(bits), i);
  }

  lemma PackedCovers(n: nat, bits: int)
    requires IsWidth(bits)
    ensures n <= PackedLength(n, bits) * PerByte(bits) < n + PerByte(bits)
  {
    JoinIndex(n + PerByte(bits) - 1, PerByte(bits));
  }

  /** Every field of the packed bytes is its code; fields past the last code are zero. */
  lemma PackedField(codes: seq<bv8>, bits: int, j: nat)
    requires IsWidth(bits) && AreCodes(codes, bits) && j / PerByte(bits) < |Pack(codes, bits)|
    ensures CodeOf(Pack(codes, bits), bits, j) == CodeAt(codes, j)
  {
    hide ShiftRight, Mask, Fields, PackedLength, PerByte;
    JoinIndex(j, PerByte(bits));
    FieldsRead(codes, bits, j / PerByte(bits) * PerByte(bits), j % PerByte(bits));
  }

  lemma PackedCode(codes: seq<bv8>, bits: int, j: nat)
    requires IsWidth(bits) && AreCodes(codes, bits) && j < |codes|
    ensures j / PerByte(bits) < |Pack(codes, bits)| && CodeOf(Pack(codes, bits), bits, j) == codes[j]
  {
    hide PackedLength, PerByte, CodeOf;
    PackedCovers(|codes|, bits);
    QuotientBelow(j, PerByte(bits), PackedLength(|codes|, bits));
    PackedField(codes, bits, j);
  }

  /** Unpacking undoes packing, for every length and width. */
  lemma UnpackPack(codes: seq<bv8>, bits: int)
    requires IsWidth(bits) && AreCodes(codes, bits)
    ensures |codes| <= |Pack(codes, bits)| * PerByte(bits) && Unpack(Pack(codes, bits), bits, |codes|) == codes
  {
    PackedCovers(|codes|, bits);
    forall j | 0 <= j < |codes| ensures Unpack(Pack(codes, bits), bits, |codes|)[j] == codes[j] {
      PackedCode(codes, bits, j);
    }
  }

  lemma FieldsOfSame(a: seq<bv8>, b: seq<bv8>, bits: int, x: nat, y: nat, n: nat)
    requires forall i: nat :: i < n ==> Window(a, x)(i) == Window(b, y)(i)
    ensures Fields(a, bits, x, n) == Fields(b, bits, y, n)
  {
    GatherSame(Placing(bits), 0, Window(a, x), Window(b, y), n);
  }

  lemma PackedByteFields(codes: seq<bv8>, bits: int)
    requires IsWidth(bits)
    ensures |Pack(codes, bits)| == PackedLength(|codes|, bits)
    ensures forall k :: 0 <= k < |Pack(codes, bits)| ==> 0 <= k * PerByte(bits)
    ensures forall k :: 0 <= k < |Pack(codes, bits)| ==>
      Pack(codes, bits)[k] == Fields(codes, bits, k * PerByte(bits), PerByte(bits))
  {
    hide Fields;
    forall k | 0 <= k < |Pack(codes, bits)| ensures 0 <= k * PerByte(bits) {
      MulMonotone(0, k, PerByte(bits));
    }
  }

  lemma GatherOne<R>(place: (R, R, nat) -> R, zero: R, code: nat -> R, n: nat)
    requires n > 0
    ensures Gather(place, zero, code, n) == place(Gather(place, zero, code, n - 1), code(n - 1), n - 1)
  {
  }

  lemma TwoFields(codes: seq<bv8>, bits: int, from: nat)
    requires bits == 3 || bits == 4
    ensures Fields(codes, bits, from, 2) == CodeAt(codes, from) | (CodeAt(codes, from + 1) << (bits as bv4))
  {
    GatherOne(Placing(bits), 0, Window(codes, from), 2);
    GatherOne(Placing(bits), 0, Window(codes, from), 1);
  }

  lemma FourFields(codes: seq<bv8>, from: nat)
    ensures Fields(codes, 2, from, 4) ==
      CodeAt(codes, from) | (CodeAt(codes, from + 1) << 2) | (CodeAt(codes, from + 2) << 4)
      | (CodeAt(codes, from + 3) << 6)
  {
    GatherOne(Placing(2), 0, Window(codes, from), 4);
    GatherOne(Placing(2), 0, Window(codes, from), 3);
    GatherOne(Placing(2), 0, Window(codes, from), 2);
    GatherOne(Placing(2), 0, Window(codes, from), 1);
  }

  lemma EightFields(codes: seq<bv8>, from: nat)
    ensures Fields(codes, 1, from, 8) ==
      CodeAt(codes, from) | (CodeAt(codes, from + 1) << 1) | (CodeAt(codes, from + 2) << 2)
      | (CodeAt(codes, from + 3) << 3) | (CodeAt(codes, from + 4) << 4) | (CodeAt(codes, from + 5) << 5)
      | (CodeAt(codes, from + 6) << 6) | (CodeAt(codes, from + 7) << 7)
  {
    GatherOne(Placing(1), 0, Window(codes, from), 8);
    GatherOne(Placing(1), 0, Window(codes, from), 7);
    GatherOne(Placing(1), 0, Window(codes, from), 6);
    GatherOne(Placing(1), 0, Window(codes, from), 5);
    LowerHalf(codes, from);
  }

  lemma LowerHalf(codes: seq<bv8>, from: nat)
    ensures Fields(codes, 1, from, 4) ==
      CodeAt(codes, from) | (CodeAt(codes, from + 1) << 1) | (CodeAt(codes, from + 2) << 2)
      | (CodeAt(codes, from + 3) << 3)
  {
    GatherOne(Placing(1), 0, Window(codes, from), 4);
    GatherOne(Placing(1), 0, Window(codes, from), 3);
    GatherOne(Placing(1), 0, Window(codes, from), 2);
    GatherOne(Placing(1), 0, Window(codes, from), 1);
  }

  /** Byte `k`, code by code: the first code in the lowest bits, and one code to a byte from five bits on. */
  lemma PackedByte(codes: seq<bv8>, bits: int, k: nat)
    requires IsWidth(bits) && k < |Pack(codes, bits)|
    ensures bits == 1 ==>
      Pack(codes, bits)[k] ==
        CodeAt(codes, 8 * k) | (CodeAt(codes, 8 * k + 1) << 1) | (CodeAt(codes, 8 * k + 2) << 2)
        | (CodeAt(codes, 8 * k + 3) << 3) | (CodeAt(codes, 8 * k + 4) << 4) | (CodeAt(codes, 8 * k + 5) << 5)
        | (CodeAt(codes, 8 * k + 6) << 6) | (CodeAt(codes, 8 * k + 7) << 7)
    ensures bits == 2 ==>
      Pack(codes, bits)[k] ==
        CodeAt(codes, 4 * k) | (CodeAt(codes, 4 * k + 1) << 2) | (CodeAt(codes, 4 * k + 2) << 4)
        | (CodeAt(codes, 4 * k + 3) << 6)
    ensures bits == 3 ==> Pack(codes, bits)[k] == CodeAt(codes, 2 * k) | (CodeAt(codes, 2 * k + 1) << 3)
    ensures bits == 4 ==> Pack(codes, bits)[k] == CodeAt(codes, 2 * k) | (CodeAt(codes, 2 * k + 1) << 4)
    ensures bits >= 5 ==> Pack(codes, bits)[k] == CodeAt(codes, k)
  {
    hide Gather, Placing, Window, CodeAt;
    if bits == 1 {
      EightFields(codes, 8 * k);
    } else if bits == 2 {
      FourFields(codes, 4 * k);
    } else if bits <= 4 {
      TwoFields(codes, bits, 2 * k);
    } else {
      OneField(codes, bits, k);
    }
  }

  lemma OneField(codes: seq<bv8>, bits: int, from: nat)
    ensures Fields(codes, bits, from, 1) == CodeAt(codes, from)
  {
    GatherOne(Placing(bits), 0, Window(codes, from), 1);
  }

  lemma NothingPacked(bits: int)
    requires IsWidth(bits)
    ensures PackedLength(0, bits) == 0
  {
  }

  lemma LeftBytes(a: seq<bv8>, b: seq<bv8>, bits: int, x: nat, n: nat)
    requires x + n <= |a|
    ensures Fields(a + b, bits, x, n) == Fields(a, bits, x, n)
  {
    forall i: nat | i < n ensures Window(a + b, x)(i) == Window(a, x)(i) {
      assert CodeAt(a + b, x + i) == CodeAt(a, x + i);
    }
    FieldsOfSame(a + b, a, bits, x, x, n);
  }

  lemma RightBytes(a: seq<bv8>, b: seq<bv8>, bits: int, x: nat, n: nat)
    ensures Fields(a + b, bits, |a| + x, n) == Fields(b, bits, x, n)
  {
    forall i: nat | i < n ensures Window(a + b, |a| + x)(i) == Window(b, x)(i) {
      assert CodeAt(a + b, |a| + (x + i)) == CodeAt(b, x + i);
    }
    FieldsOfSame(a + b, b, bits, |a| + x, x, n);
  }

  /** Codes that end on a byte boundary pack independently of what follows. */
  lemma PackConcat(a: seq<bv8>, b: seq<bv8>, bits: int)
    requires IsWidth(bits) && |a| % PerByte(bits) == 0
    ensures Pack(a + b, bits) == Pack(a, bits) + Pack(b, bits)
  {
    hide Fields, Pack, PackedLength, PerByte;
    var per := PerByte(bits);
    var whole := |a| / per;
    JoinIndex(|a|, per);
    PackedLengthAdds(whole, |b|, bits);
    PackedLengthAdds(whole, 0, bits);
    PackedByteFields(a, bits);
    PackedByteFields(b, bits);
    PackedByteFields(a + b, bits);
    assert PackedLength(0, bits) == 0 by {
      NothingPacked(bits);
    }
    forall k | 0 <= k < |Pack(a + b, bits)| ensures Pack(a + b, bits)[k] == (Pack(a, bits) + Pack(b, bits))[k] {
      if k < whole {
        MulMonotone(k + 1, whole, per);
        LeftBytes(a, b, bits, k * per, per);
      } else {
        assert k * per == |a| + (k - whole) * per;
        MulMonotone(0, k - whole, per);
        RightBytes(a, b, bits, (k - whole) * per, per);
      }
    }
  }

  lemma PackedLengthAdds(k: nat, n: nat, bits: int)
    requires IsWidth(bits)
    ensures PackedLength(k * PerByte(bits) + n, bits) == k + PackedLength(n, bits)
  {
    var per := PerByte(bits);
    JoinIndex(n + per - 1, per);
    SplitIndex(k + (n + per - 1) / per, (n + per - 1) % per, per);
    assert (k + (n + per - 1) / per) * per == k * per + (n + per - 1) / per * per;
  }

  /** A run of whole bytes reads as the same run of codes. */
  lemma CodeOfSlice(packed: seq<bv8>, bits: int, from: nat, to: nat, j: nat)
    requires IsWidth(bits) && from <= to <= |packed| && j < (to - from) * PerByte(bits)
    ensures j / PerByte(bits) < to - from
    ensures (from * PerByte(bits) + j) / PerByte(bits) < |packed|
    ensures CodeOf(packed[from..to], bits, j) == CodeOf(packed, bits, from * PerByte(bits) + j)
  {
    var per := PerByte(bits);
    QuotientBelow(j, per, to - from);
    JoinIndex(j, per);
    SplitIndex(from + j / per, j % per, per);
    assert (from + j / per) * per + j % per == from * per + j;
  }

  // ---------------------------------------------------------------- the loops

  lemma NoFields(codes: seq<bv8>, bits: int)
    ensures forall from: nat :: Fields(codes, bits, from, 0) == 0
  {
  }

  lemma FieldsNext(codes: seq<bv8>, bits: int, from: nat, i: nat)
    ensures Fields(codes, bits, from, i + 1)
      == Fields(codes, bits, from, i) | ShiftLeft(CodeAt(codes, from + i), i * bits)
  {
  }

  ghost predicate HoldsFields(packed: seq<bv8>, codes: seq<bv8>, bits: int, from: nat, to: nat, n: nat)
    requires IsWidth(bits) && to <= |packed|
  {
    forall k: nat :: from <= k < to ==> packed[k] == Fields(codes, bits, k * PerByte(bits), n)
  }

  /** One strided pass: field `i` of every byte. */
  method PackPass(packed: array<bv8>, codes: seq<bv8>, bits: int, i: nat)
    requires IsWidth(bits) && HoldsFields(packed[..], codes, bits, 0, packed.Length, i)
    modifies packed
    ensures HoldsFields(packed[..], codes, bits, 0, packed.Length, i + 1)
  {
    hide Fields, ShiftLeft, CodeAt;
    for k := 0 to packed.Length
      invariant HoldsFields(packed[..], codes, bits, 0, k, i + 1)
      invariant HoldsFields(packed[..], codes, bits, k, packed.Length, i)
    {
      MulMonotone(0, k, PerByte(bits));
      FieldsNext(codes, bits, k * PerByte(bits), i);
      packed[k] := packed[k] | ShiftLeft(CodeAt(codes, k * PerByte(bits) + i), i * bits);
    }
  }

  /** `_pack_tensor`: one pass per field position. */
  method PackTensor(codes: seq<bv8>, bits: int) returns (result: Option<seq<bv8>>)
    ensures result.Some? <==> IsWidth(bits)
    ensures result.Some? ==> result.value == Pack(codes, bits)
  {
    if bits <= 0 || bits > 8 {
      return None;
    }
    hide Fields;
    NoFields(codes, bits);
    var packed := new bv8[PackedLength(|codes|, bits)](_ => 0);
    for i := 0 to PerByte(bits)
      invariant HoldsFields(packed[..], codes, bits, 0, packed.Length, i)
    {
      PackPass(packed, codes, bits, i);
    }
    PackedByteFields(codes, bits);
    assert packed[..] == Pack(codes, bits);
    return Some(packed[..]);
  }

  /** `_unpack_tensor`: one strided pass per field position. */
  method UnpackTensor(packed: seq<bv8>, bits: int, n: nat) returns (codes: seq<bv8>)
    requires IsWidth(bits) && n <= |packed| * PerByte(bits)
    ensures codes == Unpack(packed, bits, n)
  {
    hide ShiftRight, Mask;
    var per := PerByte(bits);
    MulMonotone(0, |packed|, per);
    var unpacked := new bv8[|packed| * per](_ => 0);
    for i := 0 to per
      invariant FieldsDone(unpacked[..], packed, bits, i, 0)
    {
      for k := 0 to |packed|
        invariant FieldsDone(unpacked[..], packed, bits, i, k)
      {
        RowFits(k, |packed|, i, per);
        ghost var before := unpacked[..];
        unpacked[k * per + i] := ShiftRight(packed[k], i * bits) & Mask(bits);
        OneFieldDone(before, packed, bits, i, k);
        assert unpacked[..] == before[k * per + i := ShiftRight(packed[k], i * bits) & Mask(bits)];
      }
      NextField(unpacked[..], packed, bits, i);
    }
    codes := unpacked[..n];
    forall j | 0 <= j < n ensures codes[j] == Unpack(packed, bits, n)[j] {
      QuotientBelow(j, per, |packed|);
      JoinIndex(j, per);
    }
  }

  /** Fields before position `i` of every byte, and position `i` of the first `k` bytes, are read. */
  ghost predicate FieldsDone(unpacked: seq<bv8>, packed: seq<bv8>, bits: int, i: nat, k: nat)
    requires IsWidth(bits)
  {
    && |unpacked| == |packed| * PerByte(bits)
    && forall j :: 0 <= j < |unpacked| && j / PerByte(bits) < |packed| ==>
      (j % PerByte(bits) < i || (j % PerByte(bits) == i && j / PerByte(bits) < k)) ==>
        unpacked[j] == CodeOf(packed, bits, j)
  }

  lemma OneFieldDone(unpacked: seq<bv8>, packed: seq<bv8>, bits: int, i: nat, k: nat)
    requires IsWidth(bits) && i < PerByte(bits) && k < |packed| && FieldsDone(unpacked, packed, bits, i, k)
    ensures 0 <= k * PerByte(bits) + i < |unpacked|
    ensures FieldsDone(unpacked[k * PerByte(bits) + i := ShiftRight(packed[k], i * bits) & Mask(bits)], packed, bits,
                       i, k + 1)
  {
    var per := PerByte(bits);
    RowFits(k, |packed|, i, per);
    SplitIndex(k, i, per);
    var after := unpacked[k * per + i := ShiftRight(packed[k], i * bits) & Mask(bits)];
    forall j | 0 <= j < |after| && j / per < |packed| && (j % per < i || (j % per == i && j / per < k + 1))
      ensures after[j] == CodeOf(packed, bits, j)
    {
      JoinIndex(j, per);
      if j % per == i && j / per == k {
        assert j == k * per + i;
      } else {
        assert j != k * per + i;
      }
    }
  }

  lemma NextField(unpacked: seq<bv8>, packed: seq<bv8>, bits: int, i: nat)
    requires IsWidth(bits) && FieldsDone(unpacked, packed, bits, i, |packed|)
    ensures FieldsDone(unpacked, packed, bits, i + 1, 0)
  {
  }
}
