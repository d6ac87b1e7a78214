/** N-gram hashing to table rows, and logical rows to physical ones. */
module PleIndex {
  import opened Collections
  import opened Matrices

  const WORD: int := 0x1_0000_0000_0000_0000
  const SIGN: int := 0x8000_0000_0000_0000

  // ---------------------------------------------------------------- 64-bit arithmetic

  /** `value & 0xFFFFFFFFFFFFFFFF`: the machine word of an integer. */
  function Word(value: int): (w: int)
    ensures 0 <= w < WORD
  {
    value % WORD
  }

  /** `signed_int64`. */
  function SignedInt64(value: int): int {
    if Word(value) >= SIGN then Word(value) - WORD else Word(value)
  }

  lemma {:induction false} AddMultiple(b: int, k: int, n: int)
    requires n > 0
    ensures (b + k * n) % n == b % n
    decreases if k < 0 then -k else k
  {
    if k > 0 {
      AddMultiple(b, k - 1, n);
      AddOnce(b + (k - 1) * n, n);
      assert b + k * n == b + (k - 1) * n + n;
    } else if k < 0 {
      AddMultiple(b, k + 1, n);
      AddOnce(b + k * n, n);
      assert b + (k + 1) * n == b + k * n + n;
    }
  }

  lemma AddOnce(x: int, n: int)
    requires n > 0
    ensures (x + n) % n == x % n
  {
    var q := x / n;
    assert x + n == (q + 1) * n + x % n;
    Remainder(x + n, n, q + 1, x % n);
  }

  lemma Remainder(a: int, n: int, q: int, r: int)
    requires n > 0 && a == q * n + r && 0 <= r < n
    ensures a % n == r
  {
    var d := a / n - q;
    assert a % n - r == -(d * n);
    Multiples(d, n);
  }

  /** The signed value is the one in two's-complement range that has the same word. */
  lemma SignedIsTwosComplement(value: int)
    ensures -SIGN <= SignedInt64(value) < SIGN && Word(SignedInt64(value)) == Word(value)
    ensures forall other :: -SIGN <= other < SIGN && Word(other) == Word(value) ==> other == SignedInt64(value)
  {
    assert WORD == SIGN + SIGN;
    WordOfRange(SignedInt64(value));
    forall other | -SIGN <= other < SIGN && Word(other) == Word(value) ensures other == SignedInt64(value) {
      WordOfRange(other);
    }
  }

  lemma WordOfRange(v: int)
    requires -SIGN <= v < SIGN
    ensures Word(v) == if v < 0 then v + WORD else v
  {
    if v < 0 {
      Remainder(v, WORD, -1, v + WORD);
    } else {
      Remainder(v, WORD, 0, v);
    }
  }

  // ---------------------------------------------------------------- exclusive or

  function Magnitude(a: int): nat {
    if a >= 0 then a else -a - 1
  }

  /** Exclusive or of unbounded integers in two's complement, low bit last. */
  function Xor(a: int, b: int): int
    decreases Magnitude(a) + Magnitude(b)
  {
    if Magnitude(a) == 0 && Magnitude(b) == 0 then (if a == b then 0 else -1)
    else 2 * Xor(a / 2, b / 2) + (a % 2 + b % 2) % 2
  }

  lemma XorStep(a: int, b: int)
    ensures Xor(a, b) == 2 * Xor(a / 2, b / 2) + (a % 2 + b % 2) % 2
  {
  }

  /** One more bit: if the residues of the halves agree modulo `n`, those of the wholes agree
      modulo `2 * n`. */
  lemma XorOfDoubledResidues(a: int, b: int, n: int)
    requires n > 0 && Xor(a / 2, b / 2) % n == Xor(a / 2 % n, b / 2 % n) && 0 <= Xor(a / 2 % n, b / 2 % n) < n
    ensures Xor(a, b) % (2 * n) == Xor(a % (2 * n), b % (2 * n)) && 0 <= Xor(a % (2 * n), b % (2 * n)) < 2 * n
  {
    hide Xor;
    HalfOfResidue(a, n);
    HalfOfResidue(b, n);
    XorStep(a, b);
    XorStep(a % (2 * n), b % (2 * n));
    DoubledResidue(Xor(a / 2, b / 2), n, (a % 2 + b % 2) % 2);
  }

  /** The low bits of an exclusive or depend on the low bits alone. */
  lemma {:induction false} XorOfResidues(a: int, b: int, k: nat)
    ensures Xor(a, b) % Power(k) == Xor(a % Power(k), b % Power(k))
    ensures 0 <= Xor(a % Power(k), b % Power(k)) < Power(k)
    decreases k
  {
    if k == 0 {
      assert a % 1 == 0 && b % 1 == 0 && Xor(a, b) % 1 == 0 && Xor(0, 0) == 0;
    } else {
      hide Xor;
      XorOfResidues(a / 2, b / 2, k - 1);
      XorOfDoubledResidues(a, b, Power(k - 1));
    }
  }

  lemma HalfOfResidue(a: int, n: int)
    requires n > 0
    ensures a % (2 * n) / 2 == a / 2 % n && a % (2 * n) % 2 == a % 2
  {
    var q, r := a / 2 / n, a / 2 % n;
    assert a / 2 == q * n + r;
    assert a == q * (2 * n) + (2 * r + a % 2);
    Remainder(a, 2 * n, q, 2 * r + a % 2);
  }

  lemma DoubledResidue(x: int, n: int, low: int)
    requires n > 0 && 0 <= low < 2
    ensures (2 * x + low) % (2 * n) == 2 * (x % n) + low
  {
    var q := x / n;
    assert x == q * n + x % n;
    assert 2 * x + low == q * (2 * n) + (2 * (x % n) + low);
    Remainder(2 * x + low, 2 * n, q, 2 * (x % n) + low);
  }

  lemma PowerOfOne()
    ensures Power(1) == 2
  {
  }

  lemma WordIsPower()
    ensures Power(64) == WORD
  {
    hide Power;
    PowerOfOne();
    PowerAdds(1, 1);
    PowerAdds(2, 2);
    PowerAdds(4, 4);
    PowerAdds(8, 8);
    PowerAdds(16, 16);
    PowerAdds(32, 32);
  }

  /** The word of an exclusive or is the exclusive or of the words. */
  lemma WordOfXor(a: int, b: int)
    ensures Word(Xor(a, b)) == Xor(Word(a), Word(b))
  {
    WordIsPower();
    XorOfResidues(a, b, 64);
  }

  lemma WordOfProduct(a: int, b: int)
    ensures Word(a * b) == Word(Word(a) * Word(b))
  {
    var x, y := Word(a), Word(b);
    var p, q := a / WORD, b / WORD;
    assert a == p * WORD + x && b == q * WORD + y;
    assert a * b == x * y + (p * b + x * q) * WORD by {
      assert a * b == p * WORD * b + x * b;
      assert x * b == x * (q * WORD) + x * y;
      assert p * WORD * b == p * b * WORD;
      assert x * (q * WORD) == x * q * WORD;
      assert (p * b + x * q) * WORD == p * b * WORD + x * q * WORD;
    }
    AddMultiple(x * y, p * b + x * q, WORD);
  }

  // ---------------------------------------------------------------- hashing

  /** The last `n` tokens, current token first. */
  function CurrentFirst(tokens: seq<int>, n: nat): (r: seq<int>)
    requires n <= |tokens|
    ensures |r| == n && forall i :: 0 <= i < n ==> r[i] == tokens[|tokens| - 1 - i]
  {
    seq(n, i requires 0 <= i < n => tokens[|tokens| - 1 - i])
  }

  /** The running hash over tokens and multipliers, in wrapping signed arithmetic. */
  function Hash(acc: int, tokens: seq<int>, multipliers: seq<int>): int
    requires |tokens| <= |multipliers|
    decreases |tokens|
  {
    if tokens == [] then acc
    else Hash(SignedInt64(Xor(acc, SignedInt64(tokens[0] * multipliers[0]))), tokens[1..], multipliers[1..])
  }

  /** The same hash on 64-bit machine words. */
  function WordHash(acc: int, tokens: seq<int>, multipliers: seq<int>): int
    requires |tokens| <= |multipliers|
    decreases |tokens|
  {
    if tokens == [] then acc
    else WordHash(Xor(acc, Word(Word(tokens[0]) * Word(multipliers[0]))), tokens[1..], multipliers[1..])
  }

  /** Wrapping signed arithmetic is 64-bit machine arithmetic. */
  lemma {:induction false} HashIsWordHash(acc: int, tokens: seq<int>, multipliers: seq<int>)
    requires |tokens| <= |multipliers|
    ensures Word(Hash(acc, tokens, multipliers)) == WordHash(Word(acc), tokens, multipliers)
    decreases |tokens|
  {
    hide Xor, Word, SignedInt64;
    if tokens != [] {
      var product := tokens[0] * multipliers[0];
      var mixed := Xor(acc, SignedInt64(product));
      SignedIsTwosComplement(product);
      SignedIsTwosComplement(mixed);
      WordOfProduct(tokens[0], multipliers[0]);
      WordOfXor(acc, SignedInt64(product));
      HashIsWordHash(SignedInt64(mixed), tokens[1..], multipliers[1..]);
    }
  }

  /** Everything needed to resolve an n-gram to rows. */
  datatype Index = Index(ngramSize: int, numHeads: nat, headsPerNgram: int, offsets: seq<int>, vocabs: seq<int>,
                         multipliers: seq<int>, totalRows: int)

  /** `build_ple_index`. */
  function BuildIndex(ngramSize: int, offsets: seq<int>, vocabs: seq<int>, multipliers: seq<int>, logicalRows: int)
    : Option<Index>
  {
    if |offsets| != |vocabs| || |multipliers| < ngramSize then None
    else if ngramSize - 1 <= 0 || |offsets| % (ngramSize - 1) != 0 then None
    else if offsets == [] || offsets[|offsets| - 1] + vocabs[|vocabs| - 1] > logicalRows then None
    else Some(Index(ngramSize, |offsets|, |offsets| / (ngramSize - 1), offsets, vocabs, multipliers[..ngramSize],
                    logicalRows))
  }

  ghost predicate IsBuilt(index: Index) {
    && index.ngramSize >= 2 && index.headsPerNgram >= 1
    && index.numHeads == |index.offsets| == |index.vocabs| == index.headsPerNgram * (index.ngramSize - 1)
    && |index.multipliers| == index.ngramSize
  }

  lemma BuiltIndexIsBuilt(ngramSize: int, offsets: seq<int>, vocabs: seq<int>, multipliers: seq<int>, logicalRows: int)
    requires BuildIndex(ngramSize, offsets, vocabs, multipliers, logicalRows).Some?
    ensures
      var index := BuildIndex(ngramSize, offsets, vocabs, multipliers, logicalRows).value;
      && IsBuilt(index) && index.offsets == offsets && index.vocabs == vocabs && index.multipliers <= multipliers
      && index.ngramSize == ngramSize && index.totalRows == logicalRows
  {
    JoinIndex(|offsets|, ngramSize - 1);
  }

  function OrderOf(index: Index, head: int): int
    requires index.headsPerNgram >= 1
  {
    2 + head / index.headsPerNgram
  }

  lemma OrderFits(index: Index, head: int)
    requires IsBuilt(index) && 0 <= head < index.numHeads
    ensures 2 <= OrderOf(index, head) <= index.ngramSize
  {
    QuotientBelow(head, index.headsPerNgram, index.ngramSize - 1);
  }

  /** The language's `%`: the sign of the divisor. */
  function FloorMod(a: int, n: int): int
    requires n != 0
  {
    if n > 0 then a % n else -(-a % -n)
  }

  /** What is left has the divisor's sign, and taking it off leaves a multiple. */
  lemma FloorModIs(a: int, n: int) returns (q: int)
    requires n != 0
    ensures a == q * n + FloorMod(a, n)
    ensures if n > 0 then 0 <= FloorMod(a, n) < n else n < FloorMod(a, n) <= 0
  {
    if n > 0 {
      q := a / n;
      assert a == q * n + a % n;
    } else {
      q := -a / -n;
      assert -a == q * -n + -a % -n;
      assert q * -n == -(q * n);
    }
  }

  /** `row_id`; a head without a vocabulary divides by zero. */
  function RowId(index: Index, head: int, tokens: seq<int>): Option<int> {
    if !(0 <= head < index.numHeads) || index.headsPerNgram < 1 || head >= |index.offsets| || head >= |index.vocabs|
    then None
    else
      var order := OrderOf(index, head);
      if |tokens| < order || |index.multipliers| < order || index.vocabs[head] == 0 then None
      else
        var hash := Hash(0, CurrentFirst(tokens, order), index.multipliers);
        Some(index.offsets[head] + FloorMod(hash, index.vocabs[head]))
  }

  /** Each head's row lies in its own stretch of the table. */
  lemma RowIdInHead(index: Index, head: int, tokens: seq<int>)
    requires RowId(index, head, tokens).Some? && index.vocabs[head] > 0
    ensures index.offsets[head] <= RowId(index, head, tokens).value < index.offsets[head] + index.vocabs[head]
  {
  }

  /** Heads follow one another, as cumulative offsets do. */
  ghost predicate Cumulative(index: Index) {
    && |index.offsets| == |index.vocabs|
    && forall h :: 0 <= h < |index.offsets| - 1 ==> index.offsets[h] + index.vocabs[h] <= index.offsets[h + 1]
  }

  /** With cumulative offsets no head ends after the last one, which is the one that is checked. */
  lemma {:induction false} CumulativeStaysInTable(index: Index, head: nat)
    requires Cumulative(index) && head < |index.offsets|
    requires forall h :: 0 <= h < |index.vocabs| ==> index.vocabs[h] >= 0
    requires index.offsets[|index.offsets| - 1] + index.vocabs[|index.vocabs| - 1] <= index.totalRows
    ensures index.offsets[head] + index.vocabs[head] <= index.totalRows
    decreases |index.offsets| - head
  {
    if head < |index.offsets| - 1 {
      CumulativeStaysInTable(index, head + 1);
    }
  }

  // ---------------------------------------------------------------- all heads, and batches

  /** Short histories are padded with zeros in front. */
  function Padded(index: Index, tokens: seq<int>): (padded: seq<int>)
    requires index.ngramSize >= 0
    ensures |padded| >= index.ngramSize
  {
    if |tokens| < index.ngramSize then Repeat(0, index.ngramSize - |tokens|) + tokens else tokens
  }

  /** The last `ngram_size` tokens of the zero-padded history. */
  function WindowOf(index: Index, tokens: seq<int>): (window: seq<int>)
    requires index.ngramSize >= 0
    ensures |window| == index.ngramSize
  {
    Padded(index, tokens)[|Padded(index, tokens)| - index.ngramSize..]
  }

  /** The rows of all heads from a history, in head order. */
  function HeadRows(index: Index, tokens: seq<int>): (rows: seq<Option<int>>)
    ensures |rows| == index.numHeads
  {
    seq(index.numHeads, h requires 0 <= h < index.numHeads => RowId(index, h, tokens))
  }

  /** `hash_all_heads`: an index error in any head raises. */
  method HashAllHeads(index: Index, tokens: seq<int>) returns (rows: Option<seq<int>>)
    requires index.ngramSize >= 0
    ensures rows.Some? <==> forall h :: 0 <= h < index.numHeads ==> RowId(index, h, Padded(index, tokens)).Some?
    ensures rows.Some? ==> |rows.value| == index.numHeads
    ensures rows.Some? ==> forall h :: 0 <= h < index.numHeads ==>
      RowId(index, h, Padded(index, tokens)) == Some(rows.value[h])
  {
    var padded := Padded(index, tokens);
    var found: seq<int> := [];
    for h := 0 to index.numHeads
      invariant |found| == h && forall k :: 0 <= k < h ==> RowId(index, k, padded) == Some(found[k])
    {
      var id := RowId(index, h, padded);
      if id == None {
        return None;
      }
      found := found + [id.value];
    }
    return Some(found);
  }

  /** A built index whose vocabularies are not empty hashes every history. */
  lemma EveryHistoryHashes(index: Index, tokens: seq<int>, head: int)
    requires IsBuilt(index) && 0 <= head < index.numHeads && index.vocabs[head] != 0
    ensures RowId(index, head, Padded(index, tokens)).Some?
  {
    OrderFits(index, head);
  }

  /** A head that starts past the table addresses a row that is not there, whatever the history. */
  lemma OverrunningHead(index: Index, tokens: seq<int>, head: int)
    requires IsBuilt(index) && 0 <= head < index.numHeads && index.vocabs[head] > 0
    requires index.offsets[head] >= index.totalRows
    ensures RowId(index, head, Padded(index, tokens)).Some?
    ensures RowId(index, head, Padded(index, tokens)).value >= index.totalRows
  {
    EveryHistoryHashes(index, tokens, head);
    RowIdInHead(index, head, Padded(index, tokens));
  }

  /** A head that ends before the table addresses a negative row, whatever the history. */
  lemma UnderrunningHead(index: Index, tokens: seq<int>, head: int)
    requires IsBuilt(index) && 0 <= head < index.numHeads && index.vocabs[head] > 0
    requires index.offsets[head] + index.vocabs[head] <= 0
    ensures RowId(index, head, Padded(index, tokens)).Some?
    ensures RowId(index, head, Padded(index, tokens)).value < 0
  {
    EveryHistoryHashes(index, tokens, head);
    RowIdInHead(index, head, Padded(index, tokens));
  }

  // ---------------------------------------------------------------- what checking the last head is worth

  /** The shape of a head specification that `build_ple_index` accepts. */
  predicate IsShaped(ngramSize: int, offsets: seq<int>, vocabs: seq<int>, multipliers: seq<int>) {
    && ngramSize >= 2 && |multipliers| >= ngramSize
    && offsets != [] && |offsets| == |vocabs| && |offsets| % (ngramSize - 1) == 0
  }

  predicate EndsBy(offsets: seq<int>, vocabs: seq<int>, limit: int)
    requires |offsets| == |vocabs|
  {
    forall h :: 0 <= h < |offsets| ==> offsets[h] + vocabs[h] <= limit
  }

  function LastEnd(offsets: seq<int>, vocabs: seq<int>): int
    requires offsets != [] && |offsets| == |vocabs|
  {
    offsets[|offsets| - 1] + vocabs[|vocabs| - 1]
  }

  /** Every table size that is accepted holds the end of every head. */
  ghost predicate AcceptedMeansEnds(ngramSize: int, offsets: seq<int>, vocabs: seq<int>, multipliers: seq<int>) {
    forall logicalRows :: BuildIndex(ngramSize, offsets, vocabs, multipliers, logicalRows).Some? ==>
      |offsets| == |vocabs| && EndsBy(offsets, vocabs, logicalRows)
  }

  lemma AcceptedIff(ngramSize: int, offsets: seq<int>, vocabs: seq<int>, multipliers: seq<int>, logicalRows: int)
    ensures BuildIndex(ngramSize, offsets, vocabs, multipliers, logicalRows).Some? <==>
      IsShaped(ngramSize, offsets, vocabs, multipliers) && LastEnd(offsets, vocabs) <= logicalRows
  {
  }

  /** Checking the last head alone keeps every head's end in the table exactly when no head ends
      after the last. */
  lemma LastHeadSufficesIff(ngramSize: int, offsets: seq<int>, vocabs: seq<int>, multipliers: seq<int>)
    ensures AcceptedMeansEnds(ngramSize, offsets, vocabs, multipliers) <==>
      (IsShaped(ngramSize, offsets, vocabs, multipliers) ==> EndsBy(offsets, vocabs, LastEnd(offsets, vocabs)))
  {
    hide BuildIndex;
    forall logicalRows
      ensures BuildIndex(ngramSize, offsets, vocabs, multipliers, logicalRows).Some? <==>
        IsShaped(ngramSize, offsets, vocabs, multipliers) && LastEnd(offsets, vocabs) <= logicalRows
    {
      AcceptedIff(ngramSize, offsets, vocabs, multipliers, logicalRows);
    }
    if IsShaped(ngramSize, offsets, vocabs, multipliers) {
      var exact := BuildIndex(ngramSize, offsets, vocabs, multipliers, LastEnd(offsets, vocabs));
      assert exact.Some?;
    }
  }

  /** A head of a history that resolves to a row of the table. */
  ghost predicate InTable(index: Index, head: int, tokens: seq<int>)
    requires index.ngramSize >= 0
  {
    var id := RowId(index, head, Padded(index, tokens));
    id.Some? && 0 <= id.value < index.totalRows
  }

  /** Every head, of every history, whatever the multipliers are. */
  ghost predicate AlwaysInTable(index: Index)
    requires index.ngramSize >= 0
  {
    forall multipliers, head, tokens :: |multipliers| == index.ngramSize && 0 <= head < index.numHeads ==>
      InTable(index.(multipliers := multipliers), head, tokens)
  }

  /** Each head's stretch lies in the table. */
  predicate HeadsFit(index: Index) {
    |index.offsets| == |index.vocabs|
    && forall h :: 0 <= h < |index.offsets| ==>
      0 <= index.offsets[h] && index.offsets[h] + index.vocabs[h] <= index.totalRows
  }

  predicate HasVocabs(index: Index) {
    forall h :: 0 <= h < |index.vocabs| ==> index.vocabs[h] > 0
  }

  /** Rows stay in the table exactly when every head's stretch does: nothing less keeps out the
      hashes that select the ends of a stretch. */
  lemma AlwaysInTableIff(index: Index)
    requires IsBuilt(index) && HasVocabs(index)
    ensures AlwaysInTable(index) <==> HeadsFit(index)
  {
    hide RowId, Padded;
    if HeadsFit(index) {
      forall multipliers, head, tokens | |multipliers| == index.ngramSize && 0 <= head < index.numHeads
        ensures InTable(index.(multipliers := multipliers), head, tokens)
      {
        var other := index.(multipliers := multipliers);
        EveryHistoryHashes(other, tokens, head);
        RowIdInHead(other, head, Padded(other, tokens));
      }
    }
    if AlwaysInTable(index) {
      forall h | 0 <= h < |index.offsets|
        ensures 0 <= index.offsets[h] && index.offsets[h] + index.vocabs[h] <= index.totalRows
      {
        EndsAreReached(index, h);
        assert InTable(index.(multipliers := Negating(index.ngramSize)), h, [0]);
        assert InTable(index.(multipliers := Negating(index.ngramSize)), h, [1]);
      }
    }
  }

  /** Multipliers that negate the current token and ignore the others. */
  function Negating(n: nat): (m: seq<int>)
    ensures |m| == n && forall i :: 0 <= i < n ==> m[i] == if i == 0 then -1 else 0
  {
    seq(n, i => if i == 0 then -1 else 0)
  }

  lemma {:induction false} IgnoredTokens(acc: int, tokens: seq<int>, multipliers: seq<int>)
    requires |tokens| <= |multipliers| && -1 <= acc <= 0 && forall i :: 0 <= i < |tokens| ==> multipliers[i] == 0
    ensures Hash(acc, tokens, multipliers) == acc
    decreases |tokens|
  {
    if tokens != [] {
      assert tokens[0] * multipliers[0] == 0;
      assert SignedInt64(0) == 0 && SignedInt64(-1) == -1;
      assert Xor(acc, 0) == acc;
      IgnoredTokens(acc, tokens[1..], multipliers[1..]);
    }
  }

  lemma NegatedHash(tokens: seq<int>, multipliers: seq<int>)
    requires 1 <= |tokens| <= |multipliers| && 0 <= tokens[0] <= 1
    requires forall i :: 0 <= i < |multipliers| ==> multipliers[i] == if i == 0 then -1 else 0
    ensures Hash(0, tokens, multipliers) == -tokens[0]
  {
    hide Xor, SignedInt64;
    assert SignedInt64(-tokens[0]) == -tokens[0] && Xor(0, -tokens[0]) == -tokens[0] by {
      SmallSigned(-tokens[0]);
    }
    assert tokens[0] * multipliers[0] == -tokens[0];
    IgnoredTokens(-tokens[0], tokens[1..], multipliers[1..]);
  }

  lemma SmallSigned(v: int)
    requires -1 <= v <= 0
    ensures SignedInt64(v) == v && Xor(0, v) == v
  {
  }

  /** With these multipliers the histories `[0]` and `[1]` select the two ends of a stretch. */
  lemma EndsAreReached(index: Index, head: int)
    requires IsBuilt(index) && 0 <= head < index.numHeads && index.vocabs[head] > 0
    ensures
      var negating := index.(multipliers := Negating(index.ngramSize));
      && RowId(negating, head, Padded(negating, [0])) == Some(index.offsets[head])
      && RowId(negating, head, Padded(negating, [1])) == Some(index.offsets[head] + index.vocabs[head] - 1)
  {
    hide Hash, SignedInt64, Xor;
    OrderFits(index, head);
    var order, multipliers := OrderOf(index, head), Negating(index.ngramSize);
    NegatedHash(CurrentFirst(Padded(index, [0]), order), multipliers);
    NegatedHash(CurrentFirst(Padded(index, [1]), order), multipliers);
    LastOfStretch(index.vocabs[head]);
  }

  lemma LastOfStretch(n: int)
    requires n > 0
    ensures FloorMod(0, n) == 0 && FloorMod(-1, n) == n - 1
  {
    Remainder(-1, n, -1, n - 1);
    Remainder(0, n, 0, 0);
  }

  /** With cumulative offsets from a first one that is not negative, the check on the last head does
      keep every row of every history in the table. */
  lemma CumulativeRowsInTable(ngramSize: int, offsets: seq<int>, vocabs: seq<int>, multipliers: seq<int>,
                              logicalRows: int)
    requires BuildIndex(ngramSize, offsets, vocabs, multipliers, logicalRows).Some?
    requires
      var index := BuildIndex(ngramSize, offsets, vocabs, multipliers, logicalRows).value;
      Cumulative(index) && HasVocabs(index) && offsets[0] >= 0
    ensures
      var index := BuildIndex(ngramSize, offsets, vocabs, multipliers, logicalRows).value;
      IsBuilt(index) && forall head, tokens :: 0 <= head < index.numHeads ==> InTable(index, head, tokens)
  {
    hide RowId, Padded;
    BuiltIndexIsBuilt(ngramSize, offsets, vocabs, multipliers, logicalRows);
    var index := BuildIndex(ngramSize, offsets, vocabs, multipliers, logicalRows).value;
    forall h: nat | h < |offsets| ensures 0 <= offsets[h] && offsets[h] + vocabs[h] <= logicalRows {
      CumulativeStaysInTable(index, h);
      CumulativeIsNonnegative(index, h);
    }
    AlwaysInTableIff(index);
    assert index.(multipliers := index.multipliers) == index;
  }

  lemma {:induction false} CumulativeIsNonnegative(index: Index, head: nat)
    requires Cumulative(index) && HasVocabs(index) && head < |index.offsets| && index.offsets[0] >= 0
    ensures index.offsets[head] >= 0
  {
    if head > 0 {
      CumulativeIsNonnegative(index, head - 1);
    }
  }

  /** The check passes both a head past the table, when offsets are not cumulative, and one before
      it, even when they are. */
  lemma LastHeadIsNotEnough()
    ensures
      var built := BuildIndex(2, [10, 0], [5, 1], [1, 1], 3);
      && built.Some? && IsBuilt(built.value)
      && built.value.vocabs[0] > 0 && built.value.offsets[0] >= built.value.totalRows
    ensures
      var built := BuildIndex(2, [-5], [1], [1, 1], 3);
      && built.Some? && IsBuilt(built.value) && Cumulative(built.value) && HasVocabs(built.value)
      && forall tokens :: RowId(built.value, 0, Padded(built.value, tokens)) == Some(-5)
  {
    BuiltIndexIsBuilt(2, [10, 0], [5, 1], [1, 1], 3);
    BuiltIndexIsBuilt(2, [-5], [1], [1, 1], 3);
    var index := BuildIndex(2, [-5], [1], [1, 1], 3).value;
    forall tokens ensures RowId(index, 0, Padded(index, tokens)) == Some(-5) {
      EveryHistoryHashes(index, tokens, 0);
      RowIdInHead(index, 0, Padded(index, tokens));
    }
  }

  /** A head's row depends only on the last `ngram_size` zero-padded tokens. */
  lemma OnlyTheWindowCounts(index: Index, tokens: seq<int>, head: int)
    requires IsBuilt(index) && 0 <= head < index.numHeads
    ensures RowId(index, head, Padded(index, tokens)) == RowId(index, head, WindowOf(index, tokens))
  {
    OrderFits(index, head);
    var order := OrderOf(index, head);
    assert CurrentFirst(Padded(index, tokens), order) == CurrentFirst(WindowOf(index, tokens), order);
  }

  /** Sliding the window over the next token. */
  lemma WindowSlides(index: Index, tokens: seq<int>, next: int)
    requires index.ngramSize >= 1
    ensures WindowOf(index, tokens + [next]) == WindowOf(index, tokens)[1..] + [next]
  {
    var n := index.ngramSize;
    var a, b := WindowOf(index, tokens + [next]), WindowOf(index, tokens)[1..] + [next];
    forall i | 0 <= i < n ensures a[i] == b[i] {
      if |tokens| + 1 <= n {
        assert Padded(index, tokens + [next]) == Repeat(0, n - |tokens| - 1) + (tokens + [next]);
        assert Padded(index, tokens) == Repeat(0, n - |tokens|) + tokens;
      } else {
        assert Padded(index, tokens + [next]) == tokens + [next];
      }
    }
  }

  /** `hash_sequence_batched`: every position from its whole history. */
  method HashSequenceBatched(index: Index, tokens: seq<int>) returns (rows: seq<seq<Option<int>>>)
    requires index.ngramSize >= 0
    ensures |rows| == |tokens|
    ensures forall i :: 0 <= i < |tokens| ==> rows[i] == HeadRows(index, Padded(index, tokens[..i + 1]))
  {
    rows := [];
    for i := 0 to |tokens|
      invariant |rows| == i
      invariant forall k :: 0 <= k < i ==> rows[k] == HeadRows(index, Padded(index, tokens[..k + 1]))
    {
      rows := rows + [HeadRows(index, Padded(index, tokens[..i + 1]))];
    }
  }

  lemma WindowOfNothing(index: Index)
    requires index.ngramSize >= 0
    ensures WindowOf(index, []) == Repeat(0, index.ngramSize)
  {
  }

  /** Decoding one token at a time, keeping nothing but the window. */
  method HashStepwise(index: Index, tokens: seq<int>) returns (rows: seq<seq<Option<int>>>)
    requires IsBuilt(index)
    ensures |rows| == |tokens|
    ensures forall i :: 0 <= i < |tokens| ==> rows[i] == HeadRows(index, WindowOf(index, tokens[..i + 1]))
  {
    hide WindowOf, RowId;
    rows := [];
    var window := Repeat(0, index.ngramSize);
    WindowOfNothing(index);
    assert tokens[..0] == [];
    for i := 0 to |tokens|
      invariant |rows| == i && window == WindowOf(index, tokens[..i])
      invariant forall k :: 0 <= k < i ==> rows[k] == HeadRows(index, WindowOf(index, tokens[..k + 1]))
    {
      WindowSlides(index, tokens[..i], tokens[i]);
      assert tokens[..i] + [tokens[i]] == tokens[..i + 1];
      window := window[1..] + [tokens[i]];
      rows := rows + [HeadRows(index, window)];
    }
  }

  lemma SameHeadRows(index: Index, tokens: seq<int>)
    requires IsBuilt(index)
    ensures HeadRows(index, Padded(index, tokens)) == HeadRows(index, WindowOf(index, tokens))
  {
    forall h | 0 <= h < index.numHeads
      ensures HeadRows(index, Padded(index, tokens))[h] == HeadRows(index, WindowOf(index, tokens))[h]
    {
      OnlyTheWindowCounts(index, tokens, h);
    }
  }

  /** Prefill and step-by-step decoding address the same rows. */
  method BatchedEqualsStepwise(index: Index, tokens: seq<int>)
    returns (batched: seq<seq<Option<int>>>, stepwise: seq<seq<Option<int>>>)
    requires IsBuilt(index)
    ensures batched == stepwise && |batched| == |tokens|
  {
    batched := HashSequenceBatched(index, tokens);
    stepwise := HashStepwise(index, tokens);
    forall i | 0 <= i < |tokens| ensures batched[i] == stepwise[i] {
      SameHeadRows(index, tokens[..i + 1]);
    }
  }

  // ---------------------------------------------------------------- physical rows

  datatype Shard = Shard(logicalFirst: nat, physicalFirst: nat, numRows: nat)

  predicate Contains(shard: Shard, row: int) {
    shard.logicalFirst <= row < shard.logicalFirst + shard.numRows
  }

  /** `physical_row_id`: the first shard that contains the row. */
  function PhysicalRow(shards: seq<Shard>, row: int): Option<nat> {
    if shards == [] then None
    else if Contains(shards[0], row) then Some(shards[0].physicalFirst + (row - shards[0].logicalFirst))
    else PhysicalRow(shards[1..], row)
  }

  /** Later shards start after earlier ones end, in both numberings. */
  ghost predicate Sequential(shards: seq<Shard>, logical: nat, physical: nat) {
    shards == [] ||
    (logical <= shards[0].logicalFirst && physical <= shards[0].physicalFirst
     && Sequential(shards[1..], shards[0].logicalFirst + shards[0].numRows,
                   shards[0].physicalFirst + shards[0].numRows))
  }

  /** A row is found exactly in a shard that contains it, as far in as in its logical numbering. */
  lemma {:induction false} PhysicalRowIsShifted(shards: seq<Shard>, logical: nat, physical: nat, row: int)
    requires Sequential(shards, logical, physical)
    ensures forall i :: 0 <= i < |shards| && Contains(shards[i], row) ==>
      PhysicalRow(shards, row) == Some(shards[i].physicalFirst + (row - shards[i].logicalFirst))
    ensures PhysicalRow(shards, row).Some? ==> exists i :: 0 <= i < |shards| && Contains(shards[i], row)
  {
    if shards != [] {
      var nextLogical := shards[0].logicalFirst + shards[0].numRows;
      var nextPhysical := shards[0].physicalFirst + shards[0].numRows;
      PhysicalRowIsShifted(shards[1..], nextLogical, nextPhysical, row);
      if Contains(shards[0], row) {
        forall i | 0 < i < |shards| ensures !Contains(shards[i], row) {
          LaterShard(shards[1..], nextLogical, nextPhysical, i - 1);
        }
      } else {
        assert forall i :: 0 < i < |shards| ==> shards[i] == shards[1..][i - 1];
        if PhysicalRow(shards, row).Some? {
          var i :| 0 <= i < |shards[1..]| && Contains(shards[1..][i], row);
          assert Contains(shards[i + 1], row);
        }
      }
    }
  }

  lemma {:induction false} LaterShard(shards: seq<Shard>, logical: nat, physical: nat, i: nat)
    requires Sequential(shards, logical, physical) && i < |shards|
    ensures shards[i].logicalFirst >= logical
  {
    if i > 0 {
      LaterShard(shards[1..], shards[0].logicalFirst + shards[0].numRows,
                 shards[0].physicalFirst + shards[0].numRows, i - 1);
    }
  }

  function PhysicalEnd(shards: seq<Shard>, physical: nat): nat {
    if shards == [] then physical else PhysicalEnd(shards[1..], shards[0].physicalFirst + shards[0].numRows)
  }

  /** A physical row lies in the table, past everything before these shards. */
  lemma {:induction false} PhysicalRowInTable(shards: seq<Shard>, logical: nat, physical: nat, row: int)
    requires Sequential(shards, logical, physical) && PhysicalRow(shards, row).Some?
    ensures physical <= PhysicalRow(shards, row).value < PhysicalEnd(shards, physical)
    ensures logical <= row
  {
    EndIsLater(shards[1..], shards[0].logicalFirst + shards[0].numRows, shards[0].physicalFirst + shards[0].numRows);
    if !Contains(shards[0], row) {
      PhysicalRowInTable(shards[1..], shards[0].logicalFirst + shards[0].numRows,
                         shards[0].physicalFirst + shards[0].numRows, row);
    }
  }

  lemma {:induction false} EndIsLater(shards: seq<Shard>, logical: nat, physical: nat)
    requires Sequential(shards, logical, physical)
    ensures PhysicalEnd(shards, physical) >= physical
  {
    if shards != [] {
      EndIsLater(shards[1..], shards[0].logicalFirst + shards[0].numRows, shards[0].physicalFirst + shards[0].numRows);
    }
  }

  /** Different logical rows never share a physical row. */
  lemma {:induction false} PhysicalRowsAreDistinct(shards: seq<Shard>, logical: nat, physical: nat, a: int, b: int)
    requires Sequential(shards, logical, physical) && a < b
    requires PhysicalRow(shards, a).Some? && PhysicalRow(shards, b).Some?
    ensures PhysicalRow(shards, a).value < PhysicalRow(shards, b).value
  {
    var nextLogical := shards[0].logicalFirst + shards[0].numRows;
    var nextPhysical := shards[0].physicalFirst + shards[0].numRows;
    if !Contains(shards[0], b) {
      PhysicalRowInTable(shards[1..], nextLogical, nextPhysical, b);
      if !Contains(shards[0], a) {
        PhysicalRowsAreDistinct(shards[1..], nextLogical, nextPhysical, a, b);
      }
    } else if !Contains(shards[0], a) {
      PhysicalRowInTable(shards[1..], nextLogical, nextPhysical, a);
    }
  }

  /** How many of the first `n` source shards are selected, and how many rows those hold. */
  function SelectedCount(selected: nat -> bool, n: nat): nat {
    if n == 0 then 0 else SelectedCount(selected, n - 1) + if selected(n - 1) then 1 else 0
  }

  function SelectedRows(rowCounts: seq<nat>, selected: nat -> bool, n: nat): nat
    requires n <= |rowCounts|
  {
    if n == 0 then 0 else SelectedRows(rowCounts, selected, n - 1) + if selected(n - 1) then rowCounts[n - 1] else 0
  }

  /** Source shard `i` stands among the planned ones, after all rows before it in the source and after the
      selected rows before it in the package. */
  ghost predicate IsPlanned(shards: seq<Shard>, rowCounts: seq<nat>, selected: nat -> bool, i: nat)
    requires i < |rowCounts|
  {
    && SelectedCount(selected, i) < |shards|
    && shards[SelectedCount(selected, i)]
      == Shard(Sum(rowCounts[..i]), SelectedRows(rowCounts, selected, i), rowCounts[i])
  }

  ghost predicate PlannedSoFar(shards: seq<Shard>, rowCounts: seq<nat>, selected: nat -> bool, n: nat)
    requires n <= |rowCounts|
  {
    && |shards| == SelectedCount(selected, n)
    && forall i: nat :: i < n && selected(i) ==> IsPlanned(shards, rowCounts, selected, i)
  }

  lemma NothingPlanned(rowCounts: seq<nat>, selected: nat -> bool)
    ensures PlannedSoFar([], rowCounts, selected, 0) && Sum(rowCounts[..0]) == 0
  {
  }

  lemma PlanNext(shards: seq<Shard>, rowCounts: seq<nat>, selected: nat -> bool, n: nat)
    requires n < |rowCounts| && PlannedSoFar(shards, rowCounts, selected, n)
    ensures
      var next := Shard(Sum(rowCounts[..n]), SelectedRows(rowCounts, selected, n), rowCounts[n]);
      PlannedSoFar(if selected(n) then shards + [next] else shards, rowCounts, selected, n + 1)
    ensures Sum(rowCounts[..n + 1]) == Sum(rowCounts[..n]) + rowCounts[n]
  {
    assert rowCounts[..n + 1] == rowCounts[..n] + [rowCounts[n]];
    SumAppend(rowCounts[..n], rowCounts[n]);
    var next := Shard(Sum(rowCounts[..n]), SelectedRows(rowCounts, selected, n), rowCounts[n]);
    var after := if selected(n) then shards + [next] else shards;
    forall i: nat | i < n + 1 && selected(i) ensures IsPlanned(after, rowCounts, selected, i) {
      if i < n {
        assert IsPlanned(shards, rowCounts, selected, i);
      }
    }
  }

  /** The planner's shard loop: every source shard advances the logical cursor, only the selected
      ones the physical. */
  method PlanShards(rowCounts: seq<nat>, selected: nat -> bool) returns (shards: seq<Shard>, physicalRows: nat)
    ensures Sequential(shards, 0, 0) && physicalRows == PhysicalEnd(shards, 0)
    ensures physicalRows == SelectedRows(rowCounts, selected, |rowCounts|)
    ensures PlannedSoFar(shards, rowCounts, selected, |rowCounts|)
    ensures (forall i: nat :: i < |rowCounts| ==> selected(i)) ==>
      |shards| == |rowCounts| && forall i :: 0 <= i < |shards| ==>
        shards[i].numRows == rowCounts[i] && shards[i].logicalFirst == shards[i].physicalFirst
  {
    hide PlannedSoFar, Sum;
    shards := [];
    physicalRows := 0;
    NothingPlanned(rowCounts, selected);
    var logical: nat := 0;
    for i := 0 to |rowCounts|
      invariant Sequential(shards, 0, 0) && physicalRows == PhysicalEnd(shards, 0)
      invariant LogicalEnd(shards, 0) <= logical == Sum(rowCounts[..i])
      invariant physicalRows == SelectedRows(rowCounts, selected, i)
      invariant PlannedSoFar(shards, rowCounts, selected, i)
      invariant (forall k: nat :: k < |rowCounts| ==> selected(k)) ==>
        |shards| == i && logical == physicalRows
        && forall k :: 0 <= k < i ==>
          shards[k].numRows == rowCounts[k] && shards[k].logicalFirst == shards[k].physicalFirst
    {
      PlanNext(shards, rowCounts, selected, i);
      if selected(i) {
        SequentialAppend(shards, 0, 0, Shard(logical, physicalRows, rowCounts[i]));
        shards := shards + [Shard(logical, physicalRows, rowCounts[i])];
        physicalRows := physicalRows + rowCounts[i];
      }
      logical := logical + rowCounts[i];
    }
  }

  function LogicalEnd(shards: seq<Shard>, logical: nat): nat {
    if shards == [] then logical else LogicalEnd(shards[1..], shards[0].logicalFirst + shards[0].numRows)
  }

  lemma {:induction false} SequentialAppend(shards: seq<Shard>, logical: nat, physical: nat, next: Shard)
    requires Sequential(shards, logical, physical)
    requires LogicalEnd(shards, logical) <= next.logicalFirst && PhysicalEnd(shards, physical) <= next.physicalFirst
    ensures Sequential(shards + [next], logical, physical)
    ensures PhysicalEnd(shards + [next], physical) == next.physicalFirst + next.numRows
    ensures LogicalEnd(shards + [next], logical) == next.logicalFirst + next.numRows
  {
    if shards == [] {
      assert [next][1..] == [];
    } else {
      assert (shards + [next])[1..] == shards[1..] + [next];
      SequentialAppend(shards[1..], shards[0].logicalFirst + shards[0].numRows,
                       shards[0].physicalFirst + shards[0].numRows, next);
    }
  }
}
