/** Row-major flattening and index arithmetic shared by the codec components. */
module Matrices {

  lemma Multiples(d: int, n: int)
    requires n > 0
    ensures d >= 1 ==> d * n >= n
    ensures d <= -1 ==> d * n <= -n
  {
    if d >= 1 {
      assert (d - 1) * n >= 0;
    } else if d <= -1 {
      assert (d + 1) * n <= 0;
    }
  }

  lemma DivOfSum(k: int, i: int, n: int)
    requires 0 <= i < n && 0 <= k
    ensures (k * n + i) / n == k
  {
    var q := (k * n + i) / n;
    assert (q - k) * n == q * n - k * n;
    Multiples(q - k, n);
  }

  lemma SplitIndex(k: int, i: int, n: int)
    requires 0 <= i < n && 0 <= k
    ensures (k * n + i) / n == k && (k * n + i) % n == i
  {
    DivOfSum(k, i, n);
  }

  lemma JoinIndex(j: int, n: int)
    requires n > 0 && j >= 0
    ensures j / n * n + j % n == j && 0 <= j % n < n && 0 <= j / n
  {
  }

  lemma RowFits(r: int, rows: int, c: int, n: int)
    requires 0 <= r < rows && 0 <= c < n
    ensures 0 <= r * n + c < rows * n
  {
    assert (r + 1) * n <= rows * n;
  }

  /** `a` below a multiple of `n` has a quotient below the factor. */
  lemma QuotientBelow(a: int, n: int, m: int)
    requires n > 0 && 0 <= a < m * n
    ensures a / n < m
  {
  }

  lemma MulMonotone(a: int, b: int, n: int)
    requires a <= b && n >= 0
    ensures a * n <= b * n
  {
  }

  lemma DivMonotone(i: nat, j: nat, n: nat)
    requires i <= j && n > 0
    ensures i / n <= j / n
  {
    JoinIndex(i, n);
    JoinIndex(j, n);
    if i / n > j / n {
      MulMonotone(j / n + 1, i / n, n);
    }
  }

  /** Row `r`, column `c` of rows of length `n`. */
  function FlatIndex(r: nat, n: nat, c: nat): nat {
    MulMonotone(0, r, n);
    r * n + c
  }

  function Area(rows: nat, n: nat): nat {
    MulMonotone(0, rows, n);
    rows * n
  }

  /** `math.prod`. */
  function Product(dims: seq<nat>): nat {
    if dims == [] then 1 else Area(dims[0], Product(dims[1..]))
  }

  // ---------------------------------------------------------------- powers of two

  /** Two to the `k`. */
  function Power(k: nat): (p: int)
    ensures p >= 1
  {
    if k == 0 then 1 else 2 * Power(k - 1)
  }

  lemma {:induction false} PowerAdds(m: nat, n: nat)
    ensures Power(m + n) == Power(m) * Power(n)
  {
    if m > 0 {
      PowerAdds(m - 1, n);
      assert Power(m) * Power(n) == 2 * (Power(m - 1) * Power(n));
    }
  }

  // ---------------------------------------------------------------- flattening

  ghost predicate AllLength<T>(rows: seq<seq<T>>, n: nat) {
    forall r :: 0 <= r < |rows| ==> |rows[r]| == n
  }

  function Flatten<T>(rows: seq<seq<T>>): seq<T> {
    if rows == [] then [] else rows[0] + Flatten(rows[1..])
  }

  lemma {:induction false} FlattenLength<T>(rows: seq<seq<T>>, n: nat)
    requires AllLength(rows, n)
    ensures |Flatten(rows)| == |rows| * n
  {
    if rows != [] {
      FlattenLength(rows[1..], n);
      assert |rows| * n == n + |rows[1..]| * n;
    }
  }

  lemma {:induction false} FlattenConcat<T>(a: seq<seq<T>>, b: seq<seq<T>>)
    ensures Flatten(a + b) == Flatten(a) + Flatten(b)
  {
    if a == [] {
      assert a + b == b;
    } else {
      assert (a + b)[1..] == a[1..] + b;
      FlattenConcat(a[1..], b);
    }
  }

  /** Row `r`, column `c` sits at `r * n + c`. */
  lemma FlattenAt<T>(rows: seq<seq<T>>, n: nat, r: nat, c: nat)
    requires AllLength(rows, n) && r < |rows| && c < n
    ensures r * n + c < |Flatten(rows)| && Flatten(rows)[r * n + c] == rows[r][c]
  {
    FlattenSlice(rows, n, r, r + 1);
    FlattenLength(rows, n);
    RowFits(r, |rows|, c, n);
    assert rows[r..r + 1] == [rows[r]];
    assert Flatten(rows[r..r + 1]) == rows[r] + Flatten<T>([]);
    assert (r + 1) * n == r * n + n;
    assert Flatten(rows)[r * n..(r + 1) * n][c] == rows[r][c];
  }

  lemma Middle<T>(a: seq<T>, b: seq<T>, c: seq<T>)
    ensures (a + (b + c))[|a|..|a| + |b|] == b
  {
  }

  /** A run of rows is a run of the flat sequence. */
  lemma FlattenSlice<T>(rows: seq<seq<T>>, n: nat, from: nat, to: nat)
    requires AllLength(rows, n) && from <= to <= |rows|
    ensures 0 <= from * n <= to * n <= |Flatten(rows)|
    ensures Flatten(rows[from..to]) == Flatten(rows)[from * n..to * n]
  {
    hide Flatten;
    var a, b, c := rows[..from], rows[from..to], rows[to..];
    assert rows == a + (b + c);
    FlattenConcat(a, b + c);
    FlattenConcat(b, c);
    FlattenLength(a, n);
    FlattenLength(b, n);
    MulMonotone(0, from, n);
    MulMonotone(from, to, n);
    assert from * n + (to - from) * n == to * n;
    Middle(Flatten(a), Flatten(b), Flatten(c));
  }
}
