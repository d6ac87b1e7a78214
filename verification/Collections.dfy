/** Ordered dictionaries and other small collection facts shared by the components. */
module Collections {

  datatype Option<+T> = None | Some(value: T)

  /** No element occurs twice. */
  ghost predicate Distinct<T>(s: seq<T>) {
    forall i, j :: 0 <= i < j < |s| ==> s[i] != s[j]
  }

  /** Python slicing: cut short by the end. */
  function Cut<T>(s: seq<T>, start: nat, length: nat): (r: seq<T>)
    ensures |r| <= length && forall i :: 0 <= i < |r| ==> start + i < |s| && r[i] == s[start + i]
    ensures |r| < length ==> start + |r| >= |s|
  {
    if start >= |s| then [] else if start + length <= |s| then s[start..start + length] else s[start..]
  }

  function Repeat<T>(x: T, n: nat): (r: seq<T>)
    ensures |r| == n && forall i :: 0 <= i < n ==> r[i] == x
  {
    seq(n, _ => x)
  }

  function Elements<T>(s: seq<T>): set<T> {
    set x | x in s
  }

  /** `s` without its first `x`: what deleting a key leaves of an ordered dictionary. */
  function Without<T(==)>(s: seq<T>, x: T): (r: seq<T>)
    ensures x !in s ==> r == s
    ensures x in s ==> |r| == |s| - 1
  {
    if s == [] then [] else if s[0] == x then s[1..] else [s[0]] + Without(s[1..], x)
  }

  lemma {:induction false} WithoutAt<T>(s: seq<T>, i: nat)
    requires Distinct(s) && i < |s|
    ensures Without(s, s[i]) == s[..i] + s[i + 1..]
  {
    assert s == s[..i] + ([s[i]] + s[i + 1..]);
    WithoutConcat(s[..i], [s[i]] + s[i + 1..], s[i]);
    assert ([s[i]] + s[i + 1..])[1..] == s[i + 1..];
  }

  lemma {:induction false} WithoutConcat<T>(a: seq<T>, b: seq<T>, x: T)
    ensures Without(a + b, x) == if x in a then Without(a, x) + b else a + Without(b, x)
  {
    if a == [] {
      assert a + b == b;
    } else {
      assert (a + b)[1..] == a[1..] + b;
      WithoutConcat(a[1..], b, x);
    }
  }

  lemma ElementsConcat<T>(a: seq<T>, b: seq<T>)
    ensures Elements(a + b) == Elements(a) + Elements(b)
  {
  }

  lemma {:induction false} WithoutMembers<T>(s: seq<T>, x: T, y: T)
    ensures y in Without(s, x) ==> y in s
    ensures y in s && y != x ==> y in Without(s, x)
  {
    if s != [] && s[0] != x {
      WithoutMembers(s[1..], x, y);
    }
  }

  lemma WithoutIsDistinct<T>(s: seq<T>, x: T)
    requires Distinct(s)
    ensures Distinct(Without(s, x)) && x !in Without(s, x)
    ensures Elements(Without(s, x)) == Elements(s) - {x}
  {
    if x in s {
      var i :| 0 <= i < |s| && s[i] == x;
      WithoutAt(s, i);
    }
    forall y ensures y in Elements(Without(s, x)) <==> y in Elements(s) - {x} {
      WithoutMembers(s, x, y);
    }
  }

  lemma {:induction false} DistinctSize<T>(s: seq<T>)
    requires Distinct(s)
    ensures |Elements(s)| == |s|
  {
    if s == [] {
      assert Elements(s) == {};
    } else {
      DistinctSize(s[1..]);
      assert Elements(s) == {s[0]} + Elements(s[1..]);
    }
  }

  /** `popitem(last=False)` on an ordered dictionary. */
  lemma PopFrontKeeps<T>(s: seq<T>)
    requires Distinct(s) && s != []
    ensures Distinct(s[1..]) && Elements(s[1..]) == Elements(s) - {s[0]}
  {
    assert s == [s[0]] + s[1..];
    ElementsConcat([s[0]], s[1..]);
  }

  /** Setting an absent key of an ordered dictionary. */
  lemma AppendKeeps<T>(s: seq<T>, x: T)
    requires Distinct(s) && x !in s
    ensures Distinct(s + [x]) && Elements(s + [x]) == Elements(s) + {x}
  {
    ElementsConcat(s, [x]);
  }

  lemma SubsetSize<T>(a: set<T>, b: set<T>)
    requires a <= b
    ensures |a| <= |b|
  {
    assert b == a + (b - a);
  }

  lemma SizeWithout<T>(s: set<T>, x: T)
    ensures |s| == |s - {x}| + if x in s then 1 else 0
  {
    if x in s {
      assert s == s - {x} + {x};
    } else {
      assert s - {x} == s;
    }
  }

  ghost predicate Ascending<T>(rank: T -> int, s: seq<T>) {
    forall i, j :: 0 <= i < j < |s| ==> rank(s[i]) < rank(s[j])
  }

  lemma {:induction false} WithoutIsAscending<T>(rank: T -> int, s: seq<T>, x: T)
    requires Ascending(rank, s)
    ensures Ascending(rank, Without(s, x))
  {
    if s != [] && s[0] != x {
      WithoutIsAscending(rank, s[1..], x);
      forall y | y in Without(s[1..], x) ensures rank(s[0]) < rank(y) {
        WithoutMembers(s[1..], x, y);
      }
    }
  }

  lemma AscendingSuffix<T>(rank: T -> int, s: seq<T>, j: nat)
    requires Ascending(rank, s) && j < |s|
    ensures forall x :: x in s[j..] <==> x in s && rank(x) >= rank(s[j])
  {
    forall x | x in s && rank(x) >= rank(s[j]) ensures x in s[j..] {
      var i: nat :| i < |s| && s[i] == x;
      assert s[j..][i - j] == x;
    }
  }

  function Max(a: int, b: int): int {
    if a >= b then a else b
  }

  predicate IsLeast(s: set<int>, x: int) {
    x in s && forall y :: y in s ==> x <= y
  }

  lemma SomeElement<T>(s: set<T>) returns (x: T)
    requires s != {}
    ensures x in s
  {
    x :| x in s;
  }

  lemma {:induction false} LeastExists(s: set<int>)
    requires s != {}
    ensures exists x :: IsLeast(s, x)
  {
    var x := SomeElement(s);
    if s == {x} {
      assert IsLeast(s, x);
    } else {
      LeastExists(s - {x});
      var z :| IsLeast(s - {x}, z);
      forall y | y in s ensures (if x <= z then x else z) <= y {
        assert y == x || y in s - {x};
      }
      assert IsLeast(s, if x <= z then x else z);
    }
  }

  function Sum(lengths: seq<nat>): nat {
    if lengths == [] then 0 else Sum(lengths[..|lengths| - 1]) + lengths[|lengths| - 1]
  }

  lemma SumAppend(lengths: seq<nat>, last: nat)
    ensures Sum(lengths + [last]) == Sum(lengths) + last
  {
    assert (lengths + [last])[..|lengths|] == lengths;
  }

  lemma {:induction false} SumOfPrefix(lengths: seq<nat>, j: nat)
    requires j <= |lengths|
    ensures Sum(lengths[..j]) <= Sum(lengths)
  {
    if j == |lengths| {
      assert lengths[..j] == lengths;
    } else {
      assert lengths[..|lengths| - 1][..j] == lengths[..j];
      SumOfPrefix(lengths[..|lengths| - 1], j);
    }
  }
}
