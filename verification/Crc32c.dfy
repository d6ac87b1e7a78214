/** The Castagnoli CRC of section 12.1 of RFC 3720: its bit-serial meaning, the table-driven
    loop that computes it, and which corruptions it cannot miss. */
module Crc32c {

  const POLYNOMIAL: bv32 := 0x82F63B78

  // ---------------------------------------------------------------- folding and iterating

  function Fold<R>(feed: (R, bv8) -> R, r: R, data: seq<bv8>): R
    decreases |data|
  {
    if data == [] then r else Fold(feed, feed(r, data[0]), data[1..])
  }

  lemma {:induction false} FoldConcat<R>(feed: (R, bv8) -> R, r: R, a: seq<bv8>, b: seq<bv8>)
    ensures Fold(feed, r, a + b) == Fold(feed, Fold(feed, r, a), b)
    decreases |a|
  {
    if a == [] {
      assert a + b == b;
    } else {
      assert (a + b)[1..] == a[1..] + b;
      FoldConcat(feed, feed(r, a[0]), a[1..], b);
    }
  }

  /** If no single byte can reconcile two registers, no data can. */
  lemma {:induction false} FoldIsInjective<R(!new)>(feed: (R, bv8) -> R, r: R, s: R, data: seq<bv8>)
    requires forall a, b, x {:trigger feed(a, x), feed(b, x)} :: feed(a, x) == feed(b, x) ==> a == b
    requires Fold(feed, r, data) == Fold(feed, s, data)
    ensures r == s
    decreases |data|
  {
    if data != [] {
      FoldIsInjective(feed, feed(r, data[0]), feed(s, data[0]), data[1..]);
    }
  }

  function Iterate<R>(f: R -> R, r: R, n: nat): R
    decreases n
  {
    if n == 0 then r else Iterate(f, f(r), n - 1)
  }

  lemma IterateOnce<R>(f: R -> R, r: R, n: nat)
    requires n > 0
    ensures Iterate(f, r, n) == Iterate(f, f(r), n - 1)
  {
  }

  lemma {:induction false} IterateAdds<R>(f: R -> R, r: R, m: nat, n: nat)
    ensures Iterate(f, r, m + n) == Iterate(f, Iterate(f, r, m), n)
    decreases m
  {
    if m > 0 {
      IterateAdds(f, f(r), m - 1, n);
    }
  }

  lemma {:induction false} IterateIsLinear<R(!new)>(f: R -> R, plus: (R, R) -> R, a: R, b: R, n: nat)
    requires forall x, y {:trigger plus(x, y)} :: f(plus(x, y)) == plus(f(x), f(y))
    ensures Iterate(f, plus(a, b), n) == plus(Iterate(f, a, n), Iterate(f, b, n))
    decreases n
  {
    if n > 0 {
      IterateIsLinear(f, plus, f(a), f(b), n - 1);
    }
  }

  lemma {:induction false} IterateIsInjective<R(!new)>(f: R -> R, a: R, b: R, n: nat)
    requires forall x, y {:trigger f(x), f(y)} :: f(x) == f(y) ==> x == y
    requires Iterate(f, a, n) == Iterate(f, b, n)
    ensures a == b
    decreases n
  {
    if n > 0 {
      IterateIsInjective(f, f(a), f(b), n - 1);
    }
  }

  /** Feed `n` bits, one at a time, from the low end of `bits`. */
  function FeedBits<R>(feedBit: (R, R) -> R, half: R -> R, crc: R, bits: R, n: nat): R
    decreases n
  {
    if n == 0 then crc else FeedBits(feedBit, half, feedBit(crc, bits), half(bits), n - 1)
  }

  /** If feeding a bit and keeping the rest aside is one step of their sum, then feeding `n`
      bits and keeping the rest aside is `n` steps of the sum. */
  lemma {:induction false} FeedBitsIsIterate<R(!new)>(feedBit: (R, R) -> R, half: R -> R, step: R -> R,
                                                      plus: (R, R) -> R, crc: R, bits: R, n: nat)
    requires forall r, x {:trigger feedBit(r, x)} :: plus(feedBit(r, x), half(x)) == step(plus(r, x))
    ensures plus(FeedBits(feedBit, half, crc, bits, n), Iterate(half, bits, n)) == Iterate(step, plus(crc, bits), n)
    decreases n
  {
    if n > 0 {
      FeedBitsIsIterate(feedBit, half, step, plus, feedBit(crc, bits), half(bits), n - 1);
    }
  }

  // ---------------------------------------------------------------- bit-serial meaning

  /** Shift the low bit of `bits` into the reflected register. */
  function FeedBit(crc: bv32, bits: bv32): bv32 {
    if crc & 1 == bits & 1 then crc >> 1 else (crc >> 1) ^ POLYNOMIAL
  }

  function Half(bits: bv32): bv32 {
    bits >> 1
  }

  /** A byte goes in bit by bit, least significant first. */
  function FeedByte(crc: bv32, byte: bv8): bv32 {
    FeedBits(FeedBit, Half, crc, byte as bv32, 8)
  }

  function Invert(crc: bv32): bv32 {
    crc ^ 0xFFFFFFFF
  }

  lemma InvertTwice(crc: bv32)
    ensures Invert(Invert(crc)) == crc
  {
  }

  /** A checksum inverts its register before and after the data. */
  function Checksum<R>(invert: R -> R, feed: (R, bv8) -> R, data: seq<bv8>, seed: R): R {
    invert(Fold(feed, invert(seed), data))
  }

  lemma ChecksumContinues<R(!new)>(invert: R -> R, feed: (R, bv8) -> R, a: seq<bv8>, b: seq<bv8>, seed: R)
    requires forall x {:trigger invert(x)} :: invert(invert(x)) == x
    ensures Checksum(invert, feed, a + b, seed) == Checksum(invert, feed, b, Checksum(invert, feed, a, seed))
  {
    FoldConcat(feed, invert(seed), a, b);
  }

  /** The CRC of `data`, continued from `seed`. */
  function Crc(data: seq<bv8>, seed: bv32): bv32 {
    Checksum(Invert, FeedByte, data, seed)
  }

  /** A checksum can be continued: the seed is the checksum so far. */
  lemma CrcContinues(a: seq<bv8>, b: seq<bv8>, seed: bv32)
    ensures Crc(a + b, seed) == Crc(b, Crc(a, seed))
  {
    forall x ensures Invert(Invert(x)) == x {
      InvertTwice(x);
    }
    ChecksumContinues(Invert, FeedByte, a, b, seed);
  }

  // ---------------------------------------------------------------- the table

  /** One step of the table's inner loop. */
  function Step(crc: bv32): bv32 {
    if crc & 1 == 1 then (crc >> 1) ^ POLYNOMIAL else crc >> 1
  }

  function Xor(a: bv32, b: bv32): bv32 {
    a ^ b
  }

  lemma ShiftEvenEven(a: bv32, b: bv32)
    ensures (a ^ b) >> 1 == (a >> 1) ^ (b >> 1)
  {
  }

  lemma ShiftOddOdd(a: bv32, b: bv32)
    ensures (a ^ b) >> 1 == ((a >> 1) ^ POLYNOMIAL) ^ ((b >> 1) ^ POLYNOMIAL)
  {
  }

  lemma ShiftEvenOdd(a: bv32, b: bv32)
    ensures ((a ^ b) >> 1) ^ POLYNOMIAL == (a >> 1) ^ ((b >> 1) ^ POLYNOMIAL)
  {
  }

  lemma ShiftOddEven(a: bv32, b: bv32)
    ensures ((a ^ b) >> 1) ^ POLYNOMIAL == ((a >> 1) ^ POLYNOMIAL) ^ (b >> 1)
  {
  }

  lemma StepEvenEven(a: bv32, b: bv32)
    requires a & 1 == 0 && b & 1 == 0
    ensures Step(a ^ b) == Step(a) ^ Step(b)
  {
    assert (a ^ b) & 1 == 0;
    ShiftEvenEven(a, b);
  }

  lemma StepOddOdd(a: bv32, b: bv32)
    requires a & 1 == 1 && b & 1 == 1
    ensures Step(a ^ b) == Step(a) ^ Step(b)
  {
    assert (a ^ b) & 1 == 0;
    ShiftOddOdd(a, b);
  }

  lemma StepEvenOdd(a: bv32, b: bv32)
    requires a & 1 == 0 && b & 1 == 1
    ensures Step(a ^ b) == Step(a) ^ Step(b)
  {
    assert (a ^ b) & 1 == 1;
    ShiftEvenOdd(a, b);
  }

  lemma StepOddEven(a: bv32, b: bv32)
    requires a & 1 == 1 && b & 1 == 0
    ensures Step(a ^ b) == Step(a) ^ Step(b)
  {
    assert (a ^ b) & 1 == 1;
    ShiftOddEven(a, b);
  }

  lemma LowBit(a: bv32)
    ensures a & 1 == 0 || a & 1 == 1
  {
  }

  /** Stepping is linear over exclusive or. */
  lemma StepIsLinear(a: bv32, b: bv32)
    ensures Step(a ^ b) == Step(a) ^ Step(b)
  {
    LowBit(a);
    LowBit(b);
    if a & 1 == 0 && b & 1 == 0 {
      StepEvenEven(a, b);
    } else if a & 1 == 0 {
      StepEvenOdd(a, b);
    } else if b & 1 == 0 {
      StepOddEven(a, b);
    } else {
      StepOddOdd(a, b);
    }
  }

  lemma StepIsInjective(a: bv32, b: bv32)
    requires Step(a) == Step(b)
    ensures a == b
  {
  }

  lemma FeedSameBit(crc: bv32, wide: bv32)
    requires crc & 1 == wide & 1
    ensures (crc >> 1) ^ (wide >> 1) == Step(crc ^ wide)
  {
    assert (crc ^ wide) & 1 == 0;
    ShiftEvenEven(crc, wide);
  }

  lemma ShiftOdd(crc: bv32, wide: bv32)
    ensures ((crc >> 1) ^ POLYNOMIAL) ^ (wide >> 1) == ((crc ^ wide) >> 1) ^ POLYNOMIAL
  {
  }

  lemma LowBitsDiffer(crc: bv32, wide: bv32)
    requires crc & 1 != wide & 1
    ensures (crc ^ wide) & 1 == 1
  {
  }

  lemma FeedOtherBit(crc: bv32, wide: bv32)
    requires (crc ^ wide) & 1 == 1
    ensures ((crc >> 1) ^ POLYNOMIAL) ^ (wide >> 1) == Step(crc ^ wide)
  {
    ShiftOdd(crc, wide);
  }

  /** Feeding a bit and keeping the rest aside is one step of their sum. */
  lemma FeedBitIsStep(crc: bv32, bits: bv32)
    ensures Xor(FeedBit(crc, bits), Half(bits)) == Step(Xor(crc, bits))
  {
    if crc & 1 == bits & 1 {
      FeedSameBit(crc, bits);
    } else {
      LowBitsDiffer(crc, bits);
      FeedOtherBit(crc, bits);
    }
  }

  lemma HalvesAway(byte: bv8)
    ensures Iterate(Half, byte as bv32, 8) == 0
  {
  }

  /** Feeding a byte is xor-ing it in and stepping eight times. */
  lemma FeedByteIsSteps(crc: bv32, byte: bv8)
    ensures FeedByte(crc, byte) == Iterate(Step, Xor(crc, byte as bv32), 8)
  {
    forall r, x ensures Xor(FeedBit(r, x), Half(x)) == Step(Xor(r, x)) {
      FeedBitIsStep(r, x);
    }
    FeedBitsIsIterate(FeedBit, Half, Step, Xor, crc, byte as bv32, 8);
    HalvesAway(byte);
  }

  lemma StepShifts(crc: bv32)
    requires crc & 1 == 0
    ensures Step(crc) == crc >> 1
  {
  }

  /** The low `n` bits of the register are clear. */
  ghost predicate LowBitsClear(crc: bv32, n: nat)
    decreases n, crc
  {
    n == 0 || (crc & 1 == 0 && LowBitsClear(Half(crc), n - 1))
  }

  lemma {:induction false} StepsShift(crc: bv32, n: nat)
    requires LowBitsClear(crc, n)
    ensures Iterate(Step, crc, n) == Iterate(Half, crc, n)
    decreases n
  {
    if n > 0 {
      StepShifts(crc);
      StepsShift(Half(crc), n - 1);
    }
  }

  /** The low `n` bits of the mask are set. */
  ghost predicate LowBitsSet(mask: bv32, n: nat)
    decreases n
  {
    n == 0 || (mask & 1 == 1 && LowBitsSet(Half(mask), n - 1))
  }

  lemma ClearOneBit(crc: bv32, mask: bv32)
    requires crc & mask == 0 && mask & 1 == 1
    ensures crc & 1 == 0
  {
  }

  lemma HalfOfAnd(crc: bv32, mask: bv32)
    ensures Half(crc) & Half(mask) == Half(crc & mask)
  {
  }

  lemma {:induction false} MaskClears(crc: bv32, mask: bv32, n: nat)
    requires crc & mask == 0 && LowBitsSet(mask, n)
    ensures LowBitsClear(crc, n)
    decreases n
  {
    if n > 0 {
      ClearOneBit(crc, mask);
      HalfOfAnd(crc, mask);
      assert Half(0) == 0;
      MaskClears(Half(crc), Half(mask), n - 1);
    }
  }

  lemma LowByteSet()
    ensures LowBitsSet(0xFF, 8)
  {
    assert LowBitsSet(0xF, 4);
  }

  lemma EightHalves(crc: bv32)
    ensures Iterate(Half, crc, 8) == crc >> 8
  {
  }

  /** Eight steps of a register whose low byte is clear only shift it. */
  lemma StepsShiftByte(crc: bv32)
    requires crc & 0xFF == 0
    ensures Iterate(Step, crc, 8) == crc >> 8
  {
    LowByteSet();
    MaskClears(crc, 0xFF, 8);
    StepsShift(crc, 8);
    EightHalves(crc);
  }

  lemma StepsAreLinear(a: bv32, b: bv32, n: nat)
    ensures Iterate(Step, Xor(a, b), n) == Xor(Iterate(Step, a, n), Iterate(Step, b, n))
  {
    forall x, y ensures Step(Xor(x, y)) == Xor(Step(x), Step(y)) {
      StepIsLinear(x, y);
    }
    IterateIsLinear(Step, Xor, a, b, n);
  }

  lemma StepsAreInjective(a: bv32, b: bv32, n: nat)
    requires Iterate(Step, a, n) == Iterate(Step, b, n)
    ensures a == b
  {
    forall x, y | Step(x) == Step(y) ensures x == y {
      StepIsInjective(x, y);
    }
    IterateIsInjective(Step, a, b, n);
  }

  lemma SplitLowByte(v: bv32, byte: bv8)
    ensures
      var x := Xor(v, byte as bv32);
      && Xor(x & 0xFF, x & 0xFFFFFF00) == x
      && (x & 0xFFFFFF00) & 0xFF == 0
      && (x & 0xFFFFFF00) >> 8 == v >> 8
  {
  }

  /** One turn of the table-driven loop feeds one byte. */
  lemma TableStep(v: bv32, byte: bv8)
    ensures FeedByte(v, byte) == Xor(Iterate(Step, Xor(v, byte as bv32) & 0xFF, 8), v >> 8)
  {
    var x := Xor(v, byte as bv32);
    FeedByteIsSteps(v, byte);
    SplitLowByte(v, byte);
    StepsAreLinear(x & 0xFF, x & 0xFFFFFF00, 8);
    StepsShiftByte(x & 0xFFFFFF00);
  }

  /** What entry `i` of the table should be. */
  function Entry(i: int): bv32
    requires 0 <= i < 256
  {
    Iterate(Step, i as bv32, 8)
  }

  /** What `_CRC32C_TABLE` holds. */
  ghost predicate IsTable(values: seq<bv32>) {
    |values| == 256 && forall i :: 0 <= i < 256 ==> values[i] == Entry(i)
  }

  /** The table's inner loop: eight steps of one byte. */
  method TableEntry(byte: int) returns (crc: bv32)
    requires 0 <= byte < 256
    ensures crc == Entry(byte)
  {
    crc := byte as bv32;
    for k := 0 to 8
      invariant Iterate(Step, crc, 8 - k) == Entry(byte)
    {
      IterateOnce(Step, crc, 8 - k);
      crc := Step(crc);
    }
  }

  method BuildTable() returns (values: seq<bv32>)
    ensures IsTable(values)
  {
    values := [];
    for byte := 0 to 256
      invariant |values| == byte && forall i :: 0 <= i < byte ==> values[i] == Entry(i)
    {
      var crc := TableEntry(byte);
      values := values + [crc];
    }
  }

  /** The table-driven loop computes the bit-serial CRC. */
  method ComputeCrc32c(table: seq<bv32>, data: seq<bv8>, crc: bv32) returns (checksum: bv32)
    requires IsTable(table)
    ensures checksum == Crc(data, crc)
  {
    var value := Invert(crc);
    for i := 0 to |data|
      invariant Fold(FeedByte, value, data[i..]) == Fold(FeedByte, Invert(crc), data)
    {
      TableStep(value, data[i]);
      value := TableLookup(table, Xor(value, data[i] as bv32) & 0xFF, value >> 8);
    }
    checksum := Invert(value);
  }

  function TableLookup(table: seq<bv32>, index: bv32, rest: bv32): (v: bv32)
    requires IsTable(table) && index <= 0xFF
    ensures v == Xor(Iterate(Step, index, 8), rest)
  {
    Xor(table[index as int], rest)
  }

  // ---------------------------------------------------------------- corruption it cannot miss

  function JoinByte(byte: bv8, rest: bv32): bv32 {
    Xor(byte as bv32, rest << 8)
  }

  /** Up to four bytes read as one little-endian word. */
  function Word(x: seq<bv8>): bv32
    decreases |x|
  {
    if x == [] then 0 else JoinByte(x[0], Word(x[1..]))
  }

  /** The largest word of `n` bytes. */
  function WordLimit(n: nat): bv32 {
    if n == 0 then 0 else if n == 1 then 0xFF else if n == 2 then 0xFFFF else if n == 3 then 0xFFFFFF else 0xFFFFFFFF
  }

  lemma WordGrows(byte: bv8, w: bv32)
    ensures w <= 0 ==> JoinByte(byte, w) <= 0xFF
    ensures w <= 0xFF ==> JoinByte(byte, w) <= 0xFFFF
    ensures w <= 0xFFFF ==> JoinByte(byte, w) <= 0xFFFFFF
  {
  }

  lemma {:induction false} WordFits(x: seq<bv8>)
    requires |x| <= 3
    ensures Word(x) <= WordLimit(|x|)
    decreases |x|
  {
    if x != [] {
      WordFits(x[1..]);
      WordGrows(x[0], Word(x[1..]));
    }
  }

  lemma ShiftThereAndBack(w: bv32)
    requires w <= 0xFFFFFF
    ensures (w << 8) & 0xFF == 0 && (w << 8) >> 8 == w
  {
  }

  lemma BitsAssociate(a: bv32, b: bv32, c: bv32)
    ensures a ^ (b ^ c) == (a ^ b) ^ c
  {
  }

  lemma XorAssociates(a: bv32, b: bv32, c: bv32)
    ensures Xor(a, Xor(b, c)) == Xor(Xor(a, b), c)
  {
    var bc, ab := Xor(b, c), Xor(a, b);
    BitsAssociate(a, b, c);
    assert bc == b ^ c && ab == a ^ b;
  }

  lemma XorCancels(a: bv32, b: bv32, c: bv32)
    requires Xor(a, c) == Xor(b, c) || Xor(c, a) == Xor(c, b)
    ensures a == b
  {
  }

  lemma ShortWord(x: seq<bv8>)
    requires |x| <= 3
    ensures Word(x) <= 0xFFFFFF
  {
    WordFits(x);
  }

  /** Feeding a byte and then laying the later bytes over the register is eight steps of
      everything laid over it at once. */
  lemma FeedFirstByte(v: bv32, byte: bv8, rest: bv32)
    requires rest <= 0xFFFFFF
    ensures Xor(FeedByte(v, byte), rest) == Iterate(Step, Xor(v, JoinByte(byte, rest)), 8)
  {
    XorAssociates(v, byte as bv32, rest << 8);
    StepsAreLinear(Xor(v, byte as bv32), rest << 8, 8);
    ShiftThereAndBack(rest);
    StepsShiftByte(rest << 8);
    FeedByteIsSteps(v, byte);
  }

  /** Feeding up to four bytes is laying them over the register and stepping. */
  lemma {:induction false} FoldIsSteps(v: bv32, x: seq<bv8>)
    requires |x| <= 4
    ensures Fold(FeedByte, v, x) == Iterate(Step, Xor(v, Word(x)), 8 * |x|)
    decreases |x|
  {
    if x == [] {
      assert Xor(v, 0) == v;
    } else {
      var rest := x[1..];
      ShortWord(rest);
      FoldIsSteps(FeedByte(v, x[0]), rest);
      FeedFirstByte(v, x[0], Word(rest));
      IterateAdds(Step, Xor(v, Word(x)), 8, 8 * |rest|);
    }
  }

  lemma SplitWord(byte: bv8, rest: bv32, other: bv8, last: bv32)
    requires rest <= 0xFFFFFF && last <= 0xFFFFFF
    requires JoinByte(byte, rest) == JoinByte(other, last)
    ensures byte == other && rest == last
  {
  }

  lemma WordsSplit(x: seq<bv8>, y: seq<bv8>)
    requires 0 < |x| == |y| <= 4 && Word(x) == Word(y)
    ensures x[0] == y[0] && Word(x[1..]) == Word(y[1..])
  {
    var rest, last := x[1..], y[1..];
    ShortWord(rest);
    ShortWord(last);
    SplitWord(x[0], Word(rest), y[0], Word(last));
  }

  lemma {:induction false} WordIsInjective(x: seq<bv8>, y: seq<bv8>)
    requires |x| == |y| <= 4 && Word(x) == Word(y)
    ensures x == y
    decreases |x|
  {
    if x != [] {
      WordsSplit(x, y);
      WordIsInjective(x[1..], y[1..]);
      SameSequence(x, y);
    }
  }

  lemma SameSequence<T>(x: seq<T>, y: seq<T>)
    requires |x| == |y| > 0 && x[0] == y[0] && x[1..] == y[1..]
    ensures x == y
  {
    assert x == [x[0]] + x[1..] && y == [y[0]] + y[1..];
  }

  lemma FeedByteIsInjective(a: bv32, b: bv32, byte: bv8)
    requires FeedByte(a, byte) == FeedByte(b, byte)
    ensures a == b
  {
    FeedByteIsSteps(a, byte);
    FeedByteIsSteps(b, byte);
    StepsAreInjective(Xor(a, byte as bv32), Xor(b, byte as bv32), 8);
    XorCancels(a, b, byte as bv32);
  }

  lemma InvertIsInjective(a: bv32, b: bv32)
    requires Invert(a) == Invert(b)
    ensures a == b
  {
  }

  lemma FeedsAreInjective()
    ensures forall a, b, x {:trigger FeedByte(a, x), FeedByte(b, x)} :: FeedByte(a, x) == FeedByte(b, x) ==> a == b
  {
    forall a, b, x | FeedByte(a, x) == FeedByte(b, x) ensures a == b {
      FeedByteIsInjective(a, b, x);
    }
  }

  /** Wherever a payload is damaged inside four consecutive bytes, its checksum changes. */
  lemma BurstIsDetected(before: seq<bv8>, x: seq<bv8>, y: seq<bv8>, after: seq<bv8>, seed: bv32)
    requires |x| == |y| <= 4 && x != y
    ensures Crc(before + x + after, seed) != Crc(before + y + after, seed)
  {
    var v := Fold(FeedByte, Invert(seed), before);
    FoldConcat(FeedByte, Invert(seed), before, x);
    FoldConcat(FeedByte, Invert(seed), before, y);
    FoldConcat(FeedByte, Invert(seed), before + x, after);
    FoldConcat(FeedByte, Invert(seed), before + y, after);
    var vx, vy := Fold(FeedByte, v, x), Fold(FeedByte, v, y);
    if Crc(before + x + after, seed) == Crc(before + y + after, seed) {
      InvertIsInjective(Fold(FeedByte, vx, after), Fold(FeedByte, vy, after));
      FeedsAreInjective();
      FoldIsInjective(FeedByte, vx, vy, after);
      FoldIsSteps(v, x);
      FoldIsSteps(v, y);
      StepsAreInjective(Xor(v, Word(x)), Xor(v, Word(y)), 8 * |x|);
      XorCancels(Word(x), Word(y), v);
      WordIsInjective(x, y);
    }
  }

  // ---------------------------------------------------------------- the check value

  /** Eight steps, given one by one. */
  lemma EightSteps(s: seq<bv32>)
    requires |s| == 9 && forall i :: 0 <= i < 8 ==> s[i + 1] == Step(s[i])
    ensures Iterate(Step, s[0], 8) == s[8]
  {
    hide Step;
    assert Iterate(Step, s[8], 0) == s[8];
    assert Iterate(Step, s[7], 1) == s[8];
    assert Iterate(Step, s[6], 2) == s[8];
    assert Iterate(Step, s[5], 3) == s[8];
    assert Iterate(Step, s[4], 4) == s[8];
    assert Iterate(Step, s[3], 5) == s[8];
    assert Iterate(Step, s[2], 6) == s[8];
    assert Iterate(Step, s[1], 7) == s[8];
  }

  /** The register after a byte, given all eight shifts. */
  lemma ByteFed(crc: bv32, byte: bv8, s: seq<bv32>)
    requires |s| == 9 && s[0] == Xor(crc, byte as bv32) && forall i :: 0 <= i < 8 ==> s[i + 1] == Step(s[i])
    ensures FeedByte(crc, byte) == s[8]
  {
    hide Step, FeedByte, Xor;
    FeedByteIsSteps(crc, byte);
    EightSteps(s);
  }

  /** Folding goes through the given registers. */
  lemma {:induction false} FoldThrough<R>(feed: (R, bv8) -> R, states: seq<R>, data: seq<bv8>)
    requires |states| == |data| + 1 && forall k :: 0 <= k < |data| ==> feed(states[k], data[k]) == states[k + 1]
    ensures Fold(feed, states[0], data) == states[|data|]
    decreases |data|
  {
    if data != [] {
      FoldThrough(feed, states[1..], data[1..]);
    }
  }

  lemma Digit1()
    ensures FeedByte(0xFFFFFFFF, 0x31) == 0x6F0A661C
  {
    hide FeedByte;
    ByteFed(0xFFFFFFFF, 0x31,
            [0xFFFFFFCE, 0x7FFFFFE7, 0xBD09C48B, 0xDC72D93D, 0xECCF57E6,
             0x7667ABF3, 0xB9C5EE81, 0xDE14CC38, 0x6F0A661C]);
  }

  lemma Digit2()
    ensures FeedByte(0x6F0A661C, 0x32) == 0x8CAA3B9F
  {
    hide FeedByte;
    ByteFed(0x6F0A661C, 0x32,
            [0x6F0A662E, 0x37853317, 0x9934A2F3, 0xCE6C6A01, 0xE5C00E78,
             0x72E0073C, 0x3970039E, 0x1CB801CF, 0x8CAA3B9F]);
  }

  lemma Digit3()
    ensures FeedByte(0x8CAA3B9F, 0x33) == 0xEF84D04D
  {
    hide FeedByte;
    ByteFed(0x8CAA3B9F, 0x33,
            [0x8CAA3BAC, 0x46551DD6, 0x232A8EEB, 0x93637C0D, 0xCB47857E,
             0x65A3C2BF, 0xB027DA27, 0xDAE5D66B, 0xEF84D04D]);
  }

  lemma Digit4()
    ensures FeedByte(0xEF84D04D, 0x34) == 0x09C50B11
  {
    hide FeedByte;
    ByteFed(0xEF84D04D, 0x34,
            [0xEF84D079, 0xF5345344, 0x7A9A29A2, 0x3D4D14D1, 0x9C50B110,
             0x4E285888, 0x27142C44, 0x138A1622, 0x09C50B11]);
  }

  lemma Digit5()
    ensures FeedByte(0x09C50B11, 0x35) == 0xE72EDCCA
  {
    hide FeedByte;
    ByteFed(0x09C50B11, 0x35,
            [0x09C50B24, 0x04E28592, 0x027142C9, 0x83CE9A1C, 0x41E74D0E,
             0x20F3A687, 0x928FE83B, 0xCBB1CF65, 0xE72EDCCA]);
  }

  lemma Digit6()
    ensures FeedByte(0xE72EDCCA, 0x36) == 0xBECA8E79
  {
    hide FeedByte;
    ByteFed(0xE72EDCCA, 0x36,
            [0xE72EDCFC, 0x73976E7E, 0x39CBB73F, 0x9E13E0E7, 0xCDFFCB0B,
             0xE409DEFD, 0xF0F2D406, 0x78796A03, 0xBECA8E79]);
  }

  lemma Digit7()
    ensures FeedByte(0xBECA8E79, 0x37) == 0xEDBD6815
  {
    hide FeedByte;
    ByteFed(0xBECA8E79, 0x37,
            [0xBECA8E4E, 0x5F654727, 0xAD4498EB, 0xD454770D, 0xE8DC00FE,
             0x746E007F, 0xB8C13B47, 0xDE96A6DB, 0xEDBD6815]);
  }

  lemma Digit8()
    ensures FeedByte(0xEDBD6815, 0x38) == 0x9F787F65
  {
    hide FeedByte;
    ByteFed(0xEDBD6815, 0x38,
            [0xEDBD682D, 0xF4288F6E, 0x7A1447B7, 0xBFFC18A3, 0xDD083729,
             0xEC7220EC, 0x76391076, 0x3B1C883B, 0x9F787F65]);
  }

  lemma Digit9()
    ensures FeedByte(0x9F787F65, 0x39) == 0x1CF96D7C
  {
    hide FeedByte;
    ByteFed(0x9F787F65, 0x39,
            [0x9F787F5C, 0x4FBC3FAE, 0x27DE1FD7, 0x91193493, 0xCA7AA131,
             0xE7CB6BE0, 0x73E5B5F0, 0x39F2DAF8, 0x1CF96D7C]);
  }

  /** The published check value: the CRC of the digits 1 to 9. */
  lemma CheckValue()
    ensures Crc([0x31, 0x32, 0x33, 0x34, 0x35, 0x36, 0x37, 0x38, 0x39], 0) == 0xE3069283
  {
    hide FeedByte, Fold;
    var digits: seq<bv8> := [0x31, 0x32, 0x33, 0x34, 0x35, 0x36, 0x37, 0x38, 0x39];
    var states: seq<bv32> := [0xFFFFFFFF, 0x6F0A661C, 0x8CAA3B9F, 0xEF84D04D, 0x09C50B11,
                              0xE72EDCCA, 0xBECA8E79, 0xEDBD6815, 0x9F787F65, 0x1CF96D7C];
    Digit1();
    Digit2();
    Digit3();
    Digit4();
    Digit5();
    Digit6();
    Digit7();
    Digit8();
    Digit9();
    FoldThrough(FeedByte, states, digits);
  }
}
