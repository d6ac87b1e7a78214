/** Round-to-nearest group quantisation in exact arithmetic, under any rule for ties. */
module Rtn {
  import opened Matrices
  import opened Packing

  /** A rounding rule: the nearest integer, ties either way. */
  ghost predicate IsNearest(round: real -> int) {
    forall x {:trigger round(x)} :: -0.5 <= x - round(x) as real <= 0.5
  }

  /** The floor `torch.clamp` puts under a scale. */
  const MIN_SCALE := 0.00000001

  /** `(1 << bits) - 1`. */
  function MaxInt(bits: int): (m: int)
    requires IsWidth(bits)
    ensures 1 <= m <= 255 && m % 2 == 1
  {
    if bits == 1 then 1 else if bits == 2 then 3 else if bits == 3 then 7 else if bits == 4 then 15
    else if bits == 5 then 31 else if bits == 6 then 63 else if bits == 7 then 127 else 255
  }

  function Abs(x: real): real {
    if x < 0.0 then -x else x
  }

  function Larger(x: real, y: real): real {
    if x < y then y else x
  }

  function Smaller(x: real, y: real): real {
    if x < y then x else y
  }

  function Clamp(x: int, lo: int, hi: int): int {
    if x < lo then lo else if x > hi then hi else x
  }

  function AbsMax(w: seq<real>): real {
    if w == [] then 0.0 else Larger(Abs(w[0]), AbsMax(w[1..]))
  }

  function MinOf(w: seq<real>): real
    requires w != []
  {
    if |w| == 1 then w[0] else Smaller(w[0], MinOf(w[1..]))
  }

  function MaxOf(w: seq<real>): real
    requires w != []
  {
    if |w| == 1 then w[0] else Larger(w[0], MaxOf(w[1..]))
  }

  lemma {:induction false} WithinAbsMax(w: seq<real>, i: nat)
    requires i < |w|
    ensures -AbsMax(w) <= w[i] <= AbsMax(w)
  {
    if i > 0 {
      WithinAbsMax(w[1..], i - 1);
    }
  }

  lemma {:induction false} WithinRange(w: seq<real>, i: nat)
    requires i < |w|
    ensures MinOf(w) <= w[i] <= MaxOf(w)
  {
    if |w| > 1 {
      WithinRange(w[1..], if i > 0 then i - 1 else 0);
    }
  }

  /** What a group is decoded with. */
  datatype Params = Params(scale: real, zero: int)

  function GroupParams(w: seq<real>, bits: int, symmetric: bool, round: real -> int): Params
    requires IsWidth(bits) && w != []
  {
    if symmetric then
      Params(Larger(AbsMax(w) / (MaxInt(bits) as real / 2.0), MIN_SCALE), MaxInt(bits) / 2)
    else
      var scale := Larger((MaxOf(w) - MinOf(w)) / MaxInt(bits) as real, MIN_SCALE);
      Params(scale, round(-MinOf(w) / scale))
  }

  lemma ScaleIsPositive(w: seq<real>, bits: int, symmetric: bool, round: real -> int)
    requires IsWidth(bits) && w != []
    ensures GroupParams(w, bits, symmetric, round).scale >= MIN_SCALE > 0.0
  {
  }

  /** The code of one weight of a group with parameters `p`. */
  function Encode(p: Params, x: real, bits: int, symmetric: bool, round: real -> int): (code: int)
    requires IsWidth(bits) && p.scale > 0.0
    ensures 0 <= code <= if symmetric then MaxInt(bits) - 1 else MaxInt(bits)
  {
    if symmetric then Clamp(round(x / p.scale), -(MaxInt(bits) / 2), MaxInt(bits) / 2) + MaxInt(bits) / 2
    else Clamp(round(x / p.scale) + p.zero, 0, MaxInt(bits))
  }

  function Level(p: Params, code: int): real {
    (code - p.zero) as real * p.scale
  }

  // ---------------------------------------------------------------- what the parameters are

  lemma LargestCode(bits: int)
    requires IsWidth(bits)
    ensures MaxInt(bits) == Power(bits) - 1
  {
    assert Power(3) == 8 && Power(6) == 64;
  }

  lemma {:induction false} AbsMaxIsAttained(w: seq<real>) returns (i: nat)
    requires w != []
    ensures i < |w| && AbsMax(w) == if w[i] < 0.0 then -w[i] else w[i]
  {
    if |w| == 1 || Abs(w[0]) >= AbsMax(w[1..]) {
      i := 0;
    } else {
      var j := AbsMaxIsAttained(w[1..]);
      i := j + 1;
    }
  }

  lemma {:induction false} MinIsAttained(w: seq<real>) returns (i: nat)
    requires w != []
    ensures i < |w| && w[i] == MinOf(w)
  {
    if |w| == 1 || w[0] < MinOf(w[1..]) {
      i := 0;
    } else {
      var j := MinIsAttained(w[1..]);
      i := j + 1;
    }
  }

  lemma {:induction false} MaxIsAttained(w: seq<real>) returns (i: nat)
    requires w != []
    ensures i < |w| && w[i] == MaxOf(w)
  {
    if |w| == 1 || w[0] >= MaxOf(w[1..]) {
      i := 0;
    } else {
      var j := MaxIsAttained(w[1..]);
      i := j + 1;
    }
  }

  /** The step between levels that spread over the span `b` to `a`, or, in the symmetric mode, over
      twice the magnitude of `a`; it is never less than 1e-8. */
  function FlooredStep(a: real, b: real, bits: int, symmetric: bool): real
    requires IsWidth(bits)
  {
    var top := (Power(bits) - 1) as real;
    var step := if symmetric then 2.0 * (if a < 0.0 then -a else a) / top else (a - b) / top;
    if step < 0.00000001 then 0.00000001 else step
  }

  /** `a` and `b` are the extremes: of largest magnitude in the symmetric mode, else the largest and
      the smallest. */
  ghost predicate AreExtremes(w: seq<real>, a: real, b: real, symmetric: bool) {
    && a in w && b in w
    && forall x :: x in w ==>
      if symmetric then (if a < 0.0 then a else -a) <= x <= (if a < 0.0 then -a else a) else b <= x <= a
  }

  /** A group's scale is the step over its extremes; its zero point is the middle
      code, or the smallest weight in steps, negated and rounded. */
  lemma ParamsFromExtremes(w: seq<real>, bits: int, symmetric: bool, round: real -> int) returns (a: real, b: real)
    requires IsWidth(bits) && w != []
    ensures AreExtremes(w, a, b, symmetric)
    ensures
      var p := GroupParams(w, bits, symmetric, round);
      && p.scale == FlooredStep(a, b, bits, symmetric)
      && p.zero == if symmetric then (Power(bits) - 1) / 2 else round(-b / p.scale)
  {
    hide AbsMax, MinOf, MaxOf, MaxInt, Power;
    LargestCode(bits);
    var i := AbsMaxIsAttained(w);
    var j := MinIsAttained(w);
    var k := MaxIsAttained(w);
    forall x | x in w ensures -AbsMax(w) <= x <= AbsMax(w) && MinOf(w) <= x <= MaxOf(w) {
      var l: nat :| l < |w| && w[l] == x;
      WithinAbsMax(w, l);
      WithinRange(w, l);
    }
    a, b := if symmetric then w[i] else w[k], w[j];
    if symmetric {
      HalfDivisor(AbsMax(w), MaxInt(bits) as real);
    }
  }

  lemma HalfDivisor(m: real, n: real)
    requires n > 0.0
    ensures m / (n / 2.0) == 2.0 * m / n
  {
    var q := m / (n / 2.0);
    assert q * (n / 2.0) == m;
    assert q * n == 2.0 * m;
  }

  // ---------------------------------------------------------------- the bound for one group

  lemma QuotientWithin(x: real, s: real, lo: real, hi: real)
    requires s > 0.0 && lo * s <= x <= hi * s
    ensures lo <= x / s <= hi
  {
    var q := x / s;
    assert q * s == x;
    if q < lo {
      ProductBelow(q, lo, s);
    }
    if q > hi {
      ProductBelow(hi, q, s);
    }
  }

  lemma ProductBelow(a: real, b: real, s: real)
    requires s > 0.0 && a < b
    ensures a * s < b * s
  {
  }

  lemma ProductWithin(d: real, s: real)
    requires s > 0.0 && -0.5 <= d <= 0.5
    ensures -(s / 2.0) <= d * s <= s / 2.0
  {
  }

  /** `d` as a quotient, with a floor under it, times the divisor covers `m`. */
  lemma FlooredQuotient(m: real, n: real)
    requires n > 0.0 && m >= 0.0
    ensures Larger(m / n, MIN_SCALE) * n >= m
  {
    var s := Larger(m / n, MIN_SCALE);
    assert m / n * n == m;
    if m / n < s {
      ProductBelow(m / n, s, n);
    }
  }

  lemma CentredReach(x: real, bound: real, s: real, half: real)
    requires s > 0.0 && -bound <= x <= bound && s * half >= bound
    ensures -half <= x / s <= half
  {
    assert -half * s == -(s * half) && half * s == s * half;
    QuotientWithin(x, s, -half, half);
  }

  /** Every weight of a symmetric group lies within half a step of the outermost levels. */
  lemma SymmetricReach(w: seq<real>, i: nat, bits: int, round: real -> int)
    requires IsWidth(bits) && i < |w|
    ensures
      var s := GroupParams(w, bits, true, round).scale;
      var h := (MaxInt(bits) / 2) as real;
      s > 0.0 && -h - 0.5 <= w[i] / s <= h + 0.5
  {
    hide AbsMax, MaxInt;
    var half := MaxInt(bits) as real / 2.0;
    assert half == (MaxInt(bits) / 2) as real + 0.5;
    WithinAbsMax(w, i);
    FlooredQuotient(AbsMax(w), half);
    CentredReach(w[i], AbsMax(w), GroupParams(w, bits, true, round).scale, half);
  }

  lemma AffineReach(x: real, low: real, high: real, s: real, m: real)
    requires s > 0.0 && low <= x <= high && s * m >= high - low
    ensures low / s <= x / s <= low / s + m
  {
    var q := low / s;
    assert q * s == low;
    assert (q + m) * s == q * s + s * m;
    QuotientWithin(x, s, q, q + m);
  }

  /** Every weight of an asymmetric group lies within the span of its levels. */
  lemma AsymmetricReach(w: seq<real>, i: nat, bits: int, round: real -> int)
    requires IsWidth(bits) && i < |w|
    ensures
      var s := GroupParams(w, bits, false, round).scale;
      s > 0.0 && MinOf(w) / s <= w[i] / s <= MinOf(w) / s + MaxInt(bits) as real
  {
    hide MinOf, MaxOf, MaxInt;
    WithinRange(w, i);
    FlooredQuotient(MaxOf(w) - MinOf(w), MaxInt(bits) as real);
    AffineReach(w[i], MinOf(w), MaxOf(w), GroupParams(w, bits, false, round).scale, MaxInt(bits) as real);
  }

  lemma SymmetricClamp(y: real, r: int, h: int)
    requires h >= 0 && -(h as real) - 0.5 <= y <= h as real + 0.5 && -0.5 <= y - r as real <= 0.5
    ensures -0.5 <= Clamp(r, -h, h) as real - y <= 0.5
  {
  }

  lemma AsymmetricClamp(y: real, r: int, low: real, z: int, m: int)
    requires m >= 0 && low <= y <= low + m as real && -0.5 <= y - r as real <= 0.5 && -0.5 <= -low - z as real <= 0.5
    ensures -0.5 <= (Clamp(r + z, 0, m) - z) as real - y <= 0.5
  {
  }

  lemma NegatedQuotient(x: real, s: real)
    requires s > 0.0
    ensures -x / s == -(x / s)
  {
  }

  /** A code is within half a step of what it stands for, even where the clamp moved it. */
  lemma CodeIsClose(w: seq<real>, i: nat, bits: int, symmetric: bool, round: real -> int)
    requires IsWidth(bits) && i < |w| && IsNearest(round)
    ensures
      var p := GroupParams(w, bits, symmetric, round);
      && p.scale > 0.0
      && 0 <= Encode(p, w[i], bits, symmetric, round) <= MaxInt(bits)
      && -0.5 <= (Encode(p, w[i], bits, symmetric, round) - p.zero) as real - w[i] / p.scale <= 0.5
  {
    hide MinOf, MaxOf, AbsMax, MaxInt;
    var p := GroupParams(w, bits, symmetric, round);
    ScaleIsPositive(w, bits, symmetric, round);
    var y := w[i] / p.scale;
    if symmetric {
      SymmetricReach(w, i, bits, round);
      SymmetricClamp(y, round(y), MaxInt(bits) / 2);
    } else {
      AsymmetricReach(w, i, bits, round);
      NegatedQuotient(MinOf(w), p.scale);
      AsymmetricClamp(y, round(y), MinOf(w) / p.scale, p.zero, MaxInt(bits));
    }
  }

  lemma LevelError(p: Params, q: int, x: real)
    requires p.scale > 0.0
    ensures Level(p, q) - x == ((q - p.zero) as real - x / p.scale) * p.scale
  {
    assert x / p.scale * p.scale == x;
  }

  lemma StepAway(d: real, e: real, s: real)
    requires s > 0.0 && -0.5 <= d <= 0.5 && (e - d >= 1.0 || e - d <= -1.0)
    ensures Abs(d * s) <= Abs(e * s)
  {
    ProductWithin(d, s);
    if e >= 0.5 {
      assert e * s >= 0.5 * s;
    } else {
      assert e * s <= -0.5 * s;
    }
  }

  /** The nearest code errs by at most half a step, and no code errs less. */
  lemma NearestIsBest(p: Params, code: int, x: real, q: int)
    requires p.scale > 0.0 && -0.5 <= (code - p.zero) as real - x / p.scale <= 0.5
    ensures Abs(Level(p, code) - x) <= p.scale / 2.0
    ensures Abs(Level(p, code) - x) <= Abs(Level(p, q) - x)
  {
    hide Level;
    var d, e := (code - p.zero) as real - x / p.scale, (q - p.zero) as real - x / p.scale;
    LevelError(p, code, x);
    LevelError(p, q, x);
    ProductWithin(d, p.scale);
    assert Level(p, code) - x == d * p.scale;
    if q != code {
      assert e - d == (q - code) as real;
      StepAway(d, e, p.scale);
    }
  }

  /** The quantiser's bound: decoding the code of a weight errs by at most half a step, and no
      other code comes closer. */
  lemma RoundingBound(w: seq<real>, i: nat, bits: int, symmetric: bool, round: real -> int)
    requires IsWidth(bits) && i < |w| && IsNearest(round)
    ensures GroupParams(w, bits, symmetric, round).scale > 0.0
    ensures 0 <= Encode(GroupParams(w, bits, symmetric, round), w[i], bits, symmetric, round) <= MaxInt(bits)
    ensures
      var p := GroupParams(w, bits, symmetric, round);
      var code := Encode(p, w[i], bits, symmetric, round);
      && Abs(Level(p, code) - w[i]) <= p.scale / 2.0
      && forall q: int :: Abs(Level(p, code) - w[i]) <= Abs(Level(p, q) - w[i])
  {
    hide GroupParams, Encode, Level, MaxInt;
    CodeIsClose(w, i, bits, symmetric, round);
    var p := GroupParams(w, bits, symmetric, round);
    var code := Encode(p, w[i], bits, symmetric, round);
    forall q: int
      ensures Abs(Level(p, code) - w[i]) <= p.scale / 2.0 && Abs(Level(p, code) - w[i]) <= Abs(Level(p, q) - w[i])
    {
      NearestIsBest(p, code, w[i], q);
    }
    NearestIsBest(p, code, w[i], code);
  }

  /** In the weights' own terms: a decoded code is within half the step over its group's extremes. */
  lemma StepBound(w: seq<real>, i: nat, bits: int, symmetric: bool, round: real -> int) returns (a: real, b: real)
    requires IsWidth(bits) && i < |w| && IsNearest(round)
    ensures AreExtremes(w, a, b, symmetric) && GroupParams(w, bits, symmetric, round).scale > 0.0
    ensures
      var p := GroupParams(w, bits, symmetric, round);
      Abs(Level(p, Encode(p, w[i], bits, symmetric, round)) - w[i]) <= FlooredStep(a, b, bits, symmetric) / 2.0
  {
    a, b := ParamsFromExtremes(w, bits, symmetric, round);
    hide *;
    RoundingBound(w, i, bits, symmetric, round);
  }
}
