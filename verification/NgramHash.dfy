/** What an n-gram hash is and which tokens it sees, bit by bit. */
module NgramHash {
  import opened Collections
  import opened Matrices
  import opened PleIndex

  // ---------------------------------------------------------------- bits

  /** Bit `j` of an integer in two's complement. */
  function Bit(x: int, j: nat): (b: int)
    ensures 0 <= b <= 1
  {
    x / Power(j) % 2
  }

  lemma Quotient(a: int, n: int, q: int, r: int)
    requires n > 0 && a == q * n + r && 0 <= r < n
    ensures a / n == q
  {
    Remainder(a, n, q, r);
    assert a / n * n == q * n;
    Multiples(a / n - q, n);
    assert (a / n - q) * n == 0;
  }

  lemma HalfOfQuotient(x: int, p: int)
    requires p > 0
    ensures x / (2 * p) == x / 2 / p
  {
    var q, r := x / 2 / p, x / 2 % p;
    assert x / 2 == q * p + r;
    assert x == q * (2 * p) + (2 * r + x % 2);
    Quotient(x, 2 * p, q, 2 * r + x % 2);
  }

  lemma BitOfHalf(x: int, j: nat)
    ensures Bit(x, j + 1) == Bit(x / 2, j)
  {
    HalfOfQuotient(x, Power(j));
  }

  lemma LowestBit(x: int)
    ensures Bit(x, 0) == x % 2
  {
    assert Power(0) == 1;
  }

  lemma HalfOfXor(a: int, b: int)
    ensures Xor(a, b) / 2 == Xor(a / 2, b / 2) && Xor(a, b) % 2 == (a % 2 + b % 2) % 2
  {
    hide Xor;
    XorStep(a, b);
  }

  lemma {:induction false} BitOfXor(a: int, b: int, j: nat)
    ensures Bit(Xor(a, b), j) == (Bit(a, j) + Bit(b, j)) % 2
    decreases j
  {
    hide Xor, Bit;
    HalfOfXor(a, b);
    if j == 0 {
      LowestBit(a);
      LowestBit(b);
      LowestBit(Xor(a, b));
    } else {
      BitOfXor(a / 2, b / 2, j - 1);
      BitOfHalf(a, j - 1);
      BitOfHalf(b, j - 1);
      BitOfHalf(Xor(a, b), j - 1);
    }
  }

  lemma QuotientOfShifted(v: int, c: int, p: int, m: int)
    requires p > 0
    ensures (v + c * (2 * m * p)) / p == v / p + 2 * (c * m)
  {
    assert v + c * (2 * m * p) == (v / p + 2 * (c * m)) * p + v % p by {
      assert (v / p + 2 * (c * m)) * p == v / p * p + 2 * (c * m) * p;
      assert c * (2 * m * p) == 2 * (c * m) * p;
    }
    Quotient(v + c * (2 * m * p), p, v / p + 2 * (c * m), v % p);
  }

  /** Wrapping keeps the low 64 bits. */
  lemma BitOfSigned(v: int, j: nat)
    requires j < 64
    ensures Bit(SignedInt64(v), j) == Bit(v, j)
  {
    hide Power;
    var c := -(v / WORD) - if Word(v) >= SIGN then 1 else 0;
    assert SignedInt64(v) == v + c * WORD;
    WordIsPower();
    PowerAdds(64 - j, j);
    PowerStep(63 - j);
    var m, p := Power(63 - j), Power(j);
    assert WORD == 2 * m * p;
    QuotientOfShifted(v, c, p, m);
    EvenShift(v / p, c * m);
  }

  lemma PowerStep(k: nat)
    ensures Power(k + 1) == 2 * Power(k)
  {
  }

  lemma EvenShift(x: int, y: int)
    ensures (x + 2 * y) % 2 == x % 2
  {
  }

  // ---------------------------------------------------------------- the hash

  /** How many of the products of the last `n` tokens, current token first, with their multipliers have
      bit `j`. */
  function Ones(tokens: seq<int>, multipliers: seq<int>, n: nat, j: nat): int
    requires n <= |tokens| && n <= |multipliers|
  {
    if n == 0 then 0
    else Ones(tokens, multipliers, n - 1, j) + Bit(tokens[|tokens| - n] * multipliers[n - 1], j)
  }

  /** A signed 64-bit number each of whose bits is set when an odd number of the products have it. */
  ghost predicate IsParity(hash: int, tokens: seq<int>, multipliers: seq<int>, n: nat)
    requires n <= |tokens| && n <= |multipliers|
  {
    -SIGN <= hash < SIGN && forall j: nat :: j < 64 ==> Bit(hash, j) == Ones(tokens, multipliers, n, j) % 2
  }

  lemma {:induction false} HashAppends(acc: int, tokens: seq<int>, last: int, multipliers: seq<int>)
    requires |tokens| < |multipliers|
    ensures Hash(acc, tokens + [last], multipliers) ==
      SignedInt64(Xor(Hash(acc, tokens, multipliers), SignedInt64(last * multipliers[|tokens|])))
    decreases |tokens|
  {
    hide Xor, SignedInt64;
    if tokens == [] {
      assert [last][1..] == [];
      assert Hash(acc, [last], multipliers)
        == Hash(SignedInt64(Xor(acc, SignedInt64(last * multipliers[0]))), [], multipliers[1..]);
    } else {
      assert (tokens + [last])[1..] == tokens[1..] + [last];
      HashAppends(SignedInt64(Xor(acc, SignedInt64(tokens[0] * multipliers[0]))), tokens[1..], last, multipliers[1..]);
    }
  }

  lemma ParityStep(h: int, product: int, ones: int, j: nat)
    requires j < 64 && Bit(h, j) == ones % 2
    ensures Bit(SignedInt64(Xor(h, SignedInt64(product))), j) == (ones + Bit(product, j)) % 2
  {
    hide Bit, Xor, SignedInt64;
    BitOfSigned(Xor(h, SignedInt64(product)), j);
    BitOfXor(h, SignedInt64(product), j);
    BitOfSigned(product, j);
  }

  lemma {:induction false} HashIsParity(tokens: seq<int>, multipliers: seq<int>, n: nat)
    requires n <= |tokens| && n <= |multipliers|
    ensures IsParity(Hash(0, CurrentFirst(tokens, n), multipliers), tokens, multipliers, n)
  {
    hide Bit, Xor, SignedInt64;
    if n == 0 {
      ZeroBits();
    } else {
      var last, h := tokens[|tokens| - n], Hash(0, CurrentFirst(tokens, n - 1), multipliers);
      HashIsParity(tokens, multipliers, n - 1);
      assert CurrentFirst(tokens, n) == CurrentFirst(tokens, n - 1) + [last];
      HashAppends(0, CurrentFirst(tokens, n - 1), last, multipliers);
      SignedIsTwosComplement(Xor(h, SignedInt64(last * multipliers[n - 1])));
      forall j: nat | j < 64
        ensures Bit(Hash(0, CurrentFirst(tokens, n), multipliers), j) == Ones(tokens, multipliers, n, j) % 2
      {
        ParityStep(h, last * multipliers[n - 1], Ones(tokens, multipliers, n - 1, j), j);
      }
    }
  }

  lemma ZeroBits()
    ensures forall j: nat :: Bit(0, j) == 0
  {
    forall j: nat ensures Bit(0, j) == 0 {
      Quotient(0, Power(j), 0, 0);
    }
  }

  lemma JoinQuotient(x: int, n: int)
    requires n > 0
    ensures x == x / n * n + x % n && 0 <= x % n < n
  {
  }

  lemma DistributeHalf(a: int, b: int, p: int)
    ensures (a * 2 + b) * p == a * (2 * p) + p * b
  {
  }

  lemma ResidueFromBit(x: int, p: int)
    requires p > 0
    ensures x % (2 * p) == x % p + p * (x / p % 2)
  {
    var q := x / p;
    JoinQuotient(x, p);
    JoinQuotient(q, 2);
    assert q * p == q / 2 * (2 * p) + p * (q % 2) by {
      DistributeHalf(q / 2, q % 2, p);
    }
    assert 0 <= p * (q % 2) + x % p < 2 * p by {
      assert q % 2 == 0 || q % 2 == 1;
    }
    Remainder(x, 2 * p, q / 2, p * (q % 2) + x % p);
  }

  lemma {:induction false} SameBitsSameResidue(a: int, b: int, k: nat)
    requires forall j: nat :: j < k ==> Bit(a, j) == Bit(b, j)
    ensures a % Power(k) == b % Power(k)
  {
    if k == 0 {
      assert a % 1 == 0 == b % 1;
    } else {
      SameBitsSameResidue(a, b, k - 1);
      ResidueFromBit(a, Power(k - 1));
      ResidueFromBit(b, Power(k - 1));
      assert Bit(a, k - 1) == Bit(b, k - 1);
    }
  }

  /** There is only one such number. */
  lemma ParityIsUnique(a: int, b: int, tokens: seq<int>, multipliers: seq<int>, n: nat)
    requires n <= |tokens| && n <= |multipliers|
    requires IsParity(a, tokens, multipliers, n) && IsParity(b, tokens, multipliers, n)
    ensures a == b
  {
    hide Power, Bit, SignedInt64;
    SameBitsSameResidue(a, b, 64);
    WordIsPower();
    SignedIsTwosComplement(a);
  }

  // ---------------------------------------------------------------- which tokens a head sees

  /** Head `h` belongs to group `g` of heads: bigrams first, then trigrams, and so on. */
  predicate InGroup(index: Index, h: int, g: nat) {
    0 <= h < index.numHeads && g * index.headsPerNgram <= h < (g + 1) * index.headsPerNgram
  }

  lemma GroupOrder(index: Index, h: int, g: nat)
    requires IsBuilt(index) && InGroup(index, h, g)
    ensures OrderOf(index, h) == g + 2 <= index.ngramSize
  {
    assert (g + 1) * index.headsPerNgram == g * index.headsPerNgram + index.headsPerNgram;
    Quotient(h, index.headsPerNgram, g, h - g * index.headsPerNgram);
    OrderFits(index, h);
  }

  /** A head of group `g` adds to its offset the parity of the products of the last `g + 2` tokens, the
      current token with the first multiplier, reduced by its vocabulary. */
  lemma RowIsParity(index: Index, h: int, g: nat, tokens: seq<int>)
    requires IsBuilt(index) && InGroup(index, h, g) && index.vocabs[h] > 0 && |tokens| >= index.ngramSize
    ensures g + 2 <= index.ngramSize
    ensures exists hash ::
      && IsParity(hash, tokens, index.multipliers, g + 2)
      && RowId(index, h, tokens) == Some(index.offsets[h] + hash % index.vocabs[h])
  {
    hide Hash, IsParity;
    GroupOrder(index, h, g);
    HashIsParity(tokens, index.multipliers, g + 2);
    var hash := Hash(0, CurrentFirst(tokens, g + 2), index.multipliers);
    assert IsParity(hash, tokens, index.multipliers, g + 2);
    assert RowId(index, h, tokens) == Some(index.offsets[h] + hash % index.vocabs[h]);
  }

  /** The last `n` tokens are the same. */
  ghost predicate AgreeAtEnd(a: seq<int>, b: seq<int>, n: nat) {
    n <= |a| && n <= |b| && a[|a| - n..] == b[|b| - n..]
  }

  /** Whatever the multipliers, a head of group `g` does not see past the last `g + 2` tokens. */
  lemma SeesNoFurther(index: Index, h: int, g: nat, a: seq<int>, b: seq<int>)
    requires IsBuilt(index) && InGroup(index, h, g)
    requires AgreeAtEnd(Padded(index, a), Padded(index, b), g + 2)
    ensures RowId(index, h, Padded(index, a)) == RowId(index, h, Padded(index, b))
  {
    hide Padded, Hash;
    GroupOrder(index, h, g);
    var x, y := Padded(index, a), Padded(index, b);
    var p, q := CurrentFirst(x, g + 2), CurrentFirst(y, g + 2);
    forall i | 0 <= i < g + 2 ensures p[i] == q[i] {
      assert x[|x| - 1 - i] == x[|x| - (g + 2)..][g + 1 - i];
      assert y[|y| - 1 - i] == y[|y| - (g + 2)..][g + 1 - i];
    }
    assert p == q;
  }

  /** The histories differ in the token `k` back from the current one, and nowhere else. */
  ghost predicate DifferOnlyAt(a: seq<int>, b: seq<int>, k: nat) {
    k < |a| == |b| && forall i :: 0 <= i < |a| && i != |a| - 1 - k ==> a[i] == b[i]
  }

  /** For some multipliers that token matters to the row of head `h`. */
  ghost predicate DependsOn(index: Index, h: int, k: nat)
    requires index.ngramSize >= 0
  {
    exists multipliers, a, b ::
      && |multipliers| == index.ngramSize && DifferOnlyAt(a, b, k)
      && RowId(index.(multipliers := multipliers), h, Padded(index, a))
        != RowId(index.(multipliers := multipliers), h, Padded(index, b))
  }

  /** Zeros but for `value` at position `k`. */
  function OneAt(n: nat, k: nat, value: int): (s: seq<int>)
    ensures |s| == n && forall i :: 0 <= i < n ==> s[i] == if i == k then value else 0
  {
    seq(n, i => if i == k then value else 0)
  }

  lemma {:induction false} OnlyOneMultiplier(tokens: seq<int>, multipliers: seq<int>, k: nat)
    requires k < |tokens| <= |multipliers| && 0 <= tokens[k] <= 1
    requires forall i :: 0 <= i < |multipliers| ==> multipliers[i] == if i == k then -1 else 0
    ensures Hash(0, tokens, multipliers) == -tokens[k]
    decreases k
  {
    hide Xor, SignedInt64;
    if k == 0 {
      NegatedHash(tokens, multipliers);
    } else {
      SmallSigned(0);
      assert tokens[0] * multipliers[0] == 0;
      OnlyOneMultiplier(tokens[1..], multipliers[1..], k - 1);
    }
  }

  lemma SeesPosition(index: Index, h: int, g: nat, k: nat)
    requires IsBuilt(index) && InGroup(index, h, g) && index.vocabs[h] >= 2 && k < g + 2
    ensures DependsOn(index, h, k)
  {
    hide Hash;
    GroupOrder(index, h, g);
    var n := index.ngramSize;
    var multipliers := OneAt(n, k, -1);
    var a, b := OneAt(n, n - 1 - k, 0), OneAt(n, n - 1 - k, 1);
    var other := index.(multipliers := multipliers);
    assert Padded(index, a) == a && Padded(index, b) == b;
    OnlyOneMultiplier(CurrentFirst(a, g + 2), multipliers, k);
    OnlyOneMultiplier(CurrentFirst(b, g + 2), multipliers, k);
    LastOfStretch(index.vocabs[h]);
    assert RowId(other, h, a) == Some(index.offsets[h]);
    assert RowId(other, h, b) == Some(index.offsets[h] + index.vocabs[h] - 1);
    assert DifferOnlyAt(a, b, k);
  }

  /** The row of a head of group `g` depends on the token `k` back exactly if `k < 2 + g`. */
  lemma DependsOnIff(index: Index, h: int, g: nat, k: nat)
    requires IsBuilt(index) && InGroup(index, h, g) && index.vocabs[h] >= 2
    ensures DependsOn(index, h, k) <==> k < g + 2
  {
    hide RowId, IsBuilt, InGroup, Padded, DifferOnlyAt, OrderOf;
    if k < g + 2 {
      SeesPosition(index, h, g, k);
    } else {
      forall multipliers, a, b | |multipliers| == index.ngramSize && DifferOnlyAt(a, b, k)
        ensures RowId(index.(multipliers := multipliers), h, Padded(index, a))
          == RowId(index.(multipliers := multipliers), h, Padded(index, b))
      {
        SameRowBeyond(index, h, g, k, multipliers, a, b);
      }
    }
  }

  lemma SameRowBeyond(index: Index, h: int, g: nat, k: nat, multipliers: seq<int>, a: seq<int>, b: seq<int>)
    requires IsBuilt(index) && InGroup(index, h, g) && k >= g + 2
    requires |multipliers| == index.ngramSize && DifferOnlyAt(a, b, k)
    ensures RowId(index.(multipliers := multipliers), h, Padded(index, a))
      == RowId(index.(multipliers := multipliers), h, Padded(index, b))
  {
    hide RowId;
    var other := index.(multipliers := multipliers);
    GroupOrder(index, h, g);
    SameBeyond(index, a, b, k, g + 2);
    SeesNoFurther(other, h, g, a, b);
  }

  lemma SameBeyond(index: Index, a: seq<int>, b: seq<int>, k: nat, n: nat)
    requires index.ngramSize >= n && DifferOnlyAt(a, b, k) && n <= k
    ensures AgreeAtEnd(Padded(index, a), Padded(index, b), n)
  {
    var x, y := Padded(index, a), Padded(index, b);
    forall i | |x| - n <= i < |x| ensures x[i] == y[i] {
    }
    assert x[|x| - n..] == y[|y| - n..];
  }
}
