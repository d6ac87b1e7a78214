/** Validation of a package: the span sweep, and re-reading every item against its checksum. */
module PackageValidator {
  import opened Collections
  import opened Regions
  import Crc32c

  // ---------------------------------------------------------------- the span sweep

  datatype Span = Span(start: int, end: int, name: string)

  datatype SpanError = OutOfBounds(name: string) | Overlaps(name: string)

  ghost predicate WithinLimit(s: Span, limit: int) {
    0 <= s.start <= s.end <= limit
  }

  ghost predicate SpansApart(s: Span, t: Span) {
    s.end <= t.start || t.end <= s.start
  }

  ghost predicate ApartFrom(s: Span, spans: seq<Span>) {
    forall t :: t in spans ==> SpansApart(s, t)
  }

  /** Every span is apart from every later one. */
  ghost predicate AllApart(spans: seq<Span>) {
    spans == [] || (ApartFrom(spans[0], spans[1..]) && AllApart(spans[1..]))
  }

  predicate Before(s: Span, t: Span) {
    s.start < t.start || (s.start == t.start && s.end <= t.end)
  }

  ghost predicate Ordered(spans: seq<Span>) {
    spans == [] || ((forall t :: t in spans[1..] ==> Before(spans[0], t)) && Ordered(spans[1..]))
  }

  function Insert(s: Span, spans: seq<Span>): seq<Span> {
    if spans == [] || Before(s, spans[0]) then [s] + spans
    else [spans[0]] + Insert(s, spans[1..])
  }

  function Sorted(spans: seq<Span>): seq<Span> {
    if spans == [] then [] else Insert(spans[0], Sorted(spans[1..]))
  }

  lemma {:induction false} InsertMembers(s: Span, spans: seq<Span>, t: Span)
    ensures t in Insert(s, spans) <==> t == s || t in spans
  {
    if spans != [] && !Before(s, spans[0]) {
      InsertMembers(s, spans[1..], t);
      assert spans == [spans[0]] + spans[1..];
    }
  }

  lemma {:induction false} InsertIsOrdered(s: Span, spans: seq<Span>)
    requires Ordered(spans)
    ensures Ordered(Insert(s, spans))
  {
    var r := Insert(s, spans);
    if spans == [] || Before(s, spans[0]) {
      assert r[1..] == spans;
      forall t | t in spans ensures Before(s, t) {
        assert t == spans[0] || t in spans[1..];
      }
    } else {
      InsertIsOrdered(s, spans[1..]);
      assert r[1..] == Insert(s, spans[1..]);
      forall t | t in r[1..] ensures Before(spans[0], t) {
        InsertMembers(s, spans[1..], t);
      }
    }
  }

  lemma ApartFromInsert(s: Span, t: Span, spans: seq<Span>)
    ensures ApartFrom(s, Insert(t, spans)) <==> SpansApart(s, t) && ApartFrom(s, spans)
  {
    forall u ensures u in Insert(t, spans) <==> u == t || u in spans {
      InsertMembers(t, spans, u);
    }
  }

  lemma ApartFromFirst(s: Span, first: Span, rest: seq<Span>)
    ensures ApartFrom(s, [first] + rest) <==> SpansApart(s, first) && ApartFrom(s, rest)
  {
  }

  lemma {:induction false} InsertKeepsApart(s: Span, spans: seq<Span>)
    ensures AllApart(Insert(s, spans)) <==> AllApart(spans) && ApartFrom(s, spans)
  {
    if spans == [] || Before(s, spans[0]) {
      assert Insert(s, spans)[1..] == spans;
    } else {
      var first, rest := spans[0], spans[1..];
      InsertKeepsApart(s, rest);
      assert Insert(s, spans)[1..] == Insert(s, rest);
      ApartFromInsert(first, s, rest);
      assert spans == [first] + rest;
      ApartFromFirst(s, first, rest);
    }
  }

  lemma {:induction false} SortedFacts(spans: seq<Span>)
    ensures Ordered(Sorted(spans))
    ensures AllApart(Sorted(spans)) <==> AllApart(spans)
    ensures forall t :: t in Sorted(spans) <==> t in spans
  {
    if spans != [] {
      SortedFacts(spans[1..]);
      InsertIsOrdered(spans[0], Sorted(spans[1..]));
      InsertKeepsApart(spans[0], Sorted(spans[1..]));
      forall t ensures t in Sorted(spans) <==> t in spans {
        InsertMembers(spans[0], Sorted(spans[1..]), t);
        assert spans == [spans[0]] + spans[1..];
      }
    }
  }

  /** What the sweep accepts, span by span. */
  ghost predicate CleanFrom(spans: seq<Span>, previousEnd: int, limit: int) {
    spans == [] ||
    (WithinLimit(spans[0], limit) && previousEnd <= spans[0].start
     && CleanFrom(spans[1..], Max(previousEnd, spans[0].end), limit))
  }

  /** On ordered spans the sweep accepts exactly disjoint spans in bounds. */
  lemma {:induction false} CleanIsDisjoint(spans: seq<Span>, previousEnd: int, limit: int)
    requires Ordered(spans)
    ensures CleanFrom(spans, previousEnd, limit) <==>
      (forall s :: s in spans ==> WithinLimit(s, limit) && previousEnd <= s.start) && AllApart(spans)
  {
    if spans != [] {
      var first, rest := spans[0], spans[1..];
      assert spans == [first] + rest;
      if WithinLimit(first, limit) && previousEnd <= first.start {
        CleanIsDisjoint(rest, first.end, limit);
        forall t | t in rest && WithinLimit(t, limit)
          ensures previousEnd <= t.start && (first.end <= t.start <==> SpansApart(first, t))
        {
          assert Before(first, t);
        }
      } else {
        assert first in spans;
      }
    }
  }

  /** `_check_non_overlapping`: no error exactly when every span is in bounds and no two of
      them overlap. */
  method CheckNonOverlapping(spans: seq<Span>, limit: int) returns (errors: seq<SpanError>)
    ensures errors == [] <==> (forall s :: s in spans ==> WithinLimit(s, limit)) && AllApart(spans)
  {
    var sorted := Sorted(spans);
    SortedFacts(spans);
    errors := [];
    var previousEnd := 0;
    for i := 0 to |sorted|
      invariant errors == [] && CleanFrom(sorted[i..], previousEnd, limit) <==> CleanFrom(sorted, 0, limit)
    {
      var s := sorted[i];
      assert sorted[i..][1..] == sorted[i + 1..];
      if s.start < 0 || s.end < s.start || s.end > limit {
        errors := errors + [OutOfBounds(s.name)];
      }
      if s.start < previousEnd {
        errors := errors + [Overlaps(s.name)];
      }
      previousEnd := Max(previousEnd, s.end);
    }
    CleanIsDisjoint(sorted, 0, limit);
  }

  // ---------------------------------------------------------------- item checksums

  /** What stands where the extents should. */
  function ReadBack(content: seq<Byte>, extents: seq<Extent>): seq<Byte>
  {
    if extents == [] then []
    else Cut(content, extents[0].offset, |extents[0].payload|) + ReadBack(content, extents[1..])
  }

  ghost predicate IsWhole(content: seq<Byte>, e: Extent) {
    e.End() <= |content| || e.payload == []
  }

  /** No extent is cut short by the end of the file. */
  ghost predicate Readable(content: seq<Byte>, extents: seq<Extent>) {
    forall e :: e in extents ==> IsWhole(content, e)
  }

  /** The checksum of `payload` continued from `soFar`. */
  function Continue(soFar: Checksum, payload: seq<Byte>): Checksum {
    Checksum(Crc32c.Crc(payload, soFar.value), soFar.length + |payload|)
  }

  /** What a complete walk arrives at. */
  function WalkOf(content: seq<Byte>, extents: seq<Extent>): Checksum {
    Continue(Checksum(0, 0), ReadBack(content, extents))
  }

  /** What the row-by-row walk accepts. */
  ghost predicate Passes(content: seq<Byte>, extents: seq<Extent>, soFar: Checksum, checksum: Checksum) {
    if extents == [] then soFar == checksum
    else
      && IsWhole(content, extents[0])
      && Passes(content, extents[1..], Continue(soFar, Cut(content, extents[0].offset, |extents[0].payload|)), checksum)
  }

  lemma ContinueTwice(soFar: Checksum, a: seq<Byte>, b: seq<Byte>)
    ensures Continue(Continue(soFar, a), b) == Continue(soFar, a + b)
  {
    Crc32c.CrcContinues(a, b, soFar.value);
  }

  lemma ContinueNothing(soFar: Checksum)
    ensures Continue(soFar, []) == soFar
  {
    Crc32c.InvertTwice(soFar.value);
  }

  lemma {:induction false} PassesIff(content: seq<Byte>, extents: seq<Extent>, soFar: Checksum, checksum: Checksum)
    ensures Passes(content, extents, soFar, checksum) <==>
      Readable(content, extents) && Continue(soFar, ReadBack(content, extents)) == checksum
  {
    if extents == [] {
      ContinueNothing(soFar);
    } else {
      var e, rest := extents[0], extents[1..];
      assert extents == [e] + rest;
      var payload := Cut(content, e.offset, |e.payload|);
      ContinueTwice(soFar, payload, ReadBack(content, rest));
      PassesIff(content, rest, Continue(soFar, payload), checksum);
    }
  }

  /** The validator's walk over an item, row by row, continuing one checksum: it passes exactly
      when no row is short and the checksum of what was read, in one piece, is the recorded one. */
  method ValidateItem(content: seq<Byte>, x: Item, checksum: Checksum) returns (ok: bool)
    ensures ok <==> Readable(content, x.extents) && WalkOf(content, x.extents) == checksum
  {
    PassesIff(content, x.extents, Checksum(0, 0), checksum);
    var soFar := Checksum(0, 0);
    for i := 0 to |x.extents|
      invariant Passes(content, x.extents[i..], soFar, checksum) <==>
        Passes(content, x.extents, Checksum(0, 0), checksum)
    {
      var e := x.extents[i];
      assert x.extents[i..][1..] == x.extents[i + 1..];
      var payload := Cut(content, e.offset, |e.payload|);
      if |payload| != |e.payload| {
        return false;
      }
      soFar := Continue(soFar, payload);
    }
    ok := soFar == checksum;
  }

  /** An item that stands as planned passes with the checksum the writer journaled. */
  lemma StandingItemPasses(content: seq<Byte>, x: Item)
    requires ItemHolds(content, x)
    ensures Readable(content, x.extents) && WalkOf(content, x.extents) == ChecksumOf(x)
  {
    forall e | e in x.extents ensures IsWhole(content, e) {
      assert Holds(content, e);
    }
    StandingItemReadsBack(content, x.extents);
  }

  lemma {:induction false} ReadBackConcat(content: seq<Byte>, a: seq<Extent>, b: seq<Extent>)
    ensures ReadBack(content, a + b) == ReadBack(content, a) + ReadBack(content, b)
  {
    if a == [] {
      assert a + b == b;
    } else {
      assert (a + b)[1..] == a[1..] + b;
      ReadBackConcat(content, a[1..], b);
    }
  }

  /** An item that stands as planned reads back as the block the writer took the checksum of. */
  lemma {:induction false} StandingItemReadsBack(content: seq<Byte>, extents: seq<Extent>)
    requires forall e :: e in extents ==> Holds(content, e)
    ensures ReadBack(content, extents) == Block(extents)
  {
    if extents != [] {
      assert Holds(content, extents[0]);
      StandingItemReadsBack(content, extents[1..]);
    }
  }

  lemma {:induction false} ReadBackAgrees(content: seq<Byte>, other: seq<Byte>, extents: seq<Extent>)
    requires |content| == |other|
    requires forall e, a :: e in extents && 0 <= a < |content| && Covers(e, a) ==> content[a] == other[a]
    ensures ReadBack(content, extents) == ReadBack(other, extents)
  {
    if extents != [] {
      var e := extents[0];
      forall a | e.offset <= a < e.End() && a < |content| ensures content[a] == other[a] {
        assert Covers(e, a);
      }
      assert Cut(content, e.offset, |e.payload|) == Cut(other, e.offset, |e.payload|);
      ReadBackAgrees(content, other, extents[1..]);
    }
  }

  /** `other` is `content` with the bytes of `[from, to)` damaged. */
  ghost predicate DamagedIn(content: seq<Byte>, other: seq<Byte>, from: nat, to: nat) {
    && from <= to <= |content| == |other|
    && content[from..to] != other[from..to]
    && forall a :: 0 <= a < |content| && !(from <= a < to) ==> content[a] == other[a]
  }

  lemma OneExtentDamaged(content: seq<Byte>, other: seq<Byte>, e: Extent, from: nat, to: nat)
    requires DamagedIn(content, other, from, to) && e.offset <= from && to <= e.End() <= |content|
    ensures Cut(content, e.offset, |e.payload|) == content[e.offset..from] + content[from..to] + content[to..e.End()]
    ensures Cut(other, e.offset, |e.payload|) == content[e.offset..from] + other[from..to] + content[to..e.End()]
  {
  }

  lemma DamageElsewhere(content: seq<Byte>, other: seq<Byte>, extents: seq<Extent>, e: Extent, from: nat, to: nat)
    requires DamagedIn(content, other, from, to) && e.offset <= from && to <= e.End()
    requires forall f :: f in extents ==> Apart(e, f)
    ensures ReadBack(content, extents) == ReadBack(other, extents)
  {
    forall f, a | f in extents && 0 <= a < |content| && Covers(f, a) ensures content[a] == other[a] {
      assert Apart(e, f);
    }
    ReadBackAgrees(content, other, extents);
  }

  lemma Regroup(a: seq<Byte>, b: seq<Byte>, x: seq<Byte>, c: seq<Byte>, d: seq<Byte>)
    ensures a + ((b + x + c) + d) == (a + b) + x + (c + d)
  {
  }

  lemma SplitAround(content: seq<Byte>, before: seq<Extent>, e: Extent, after: seq<Extent>)
    ensures ReadBack(content, before + ([e] + after))
      == ReadBack(content, before) + (Cut(content, e.offset, |e.payload|) + ReadBack(content, after))
  {
    ReadBackConcat(content, before, [e] + after);
    assert ([e] + after)[1..] == after;
  }

  lemma DamageSplits(content: seq<Byte>, other: seq<Byte>, before: seq<Extent>, e: Extent, after: seq<Extent>,
                     from: nat, to: nat)
    returns (head: seq<Byte>, tail: seq<Byte>)
    requires DamagedIn(content, other, from, to) && e.offset <= from && to <= e.End() <= |content|
    requires forall f :: f in before || f in after ==> Apart(e, f)
    ensures ReadBack(content, before + ([e] + after)) == head + content[from..to] + tail
    ensures ReadBack(other, before + ([e] + after)) == head + other[from..to] + tail
  {
    DamageElsewhere(content, other, before, e, from, to);
    DamageElsewhere(content, other, after, e, from, to);
    SplitAround(content, before, e, after);
    SplitAround(other, before, e, after);
    OneExtentDamaged(content, other, e, from, to);
    var first, last := ReadBack(content, before), ReadBack(content, after);
    var left, right := content[e.offset..from], content[to..e.End()];
    Regroup(first, left, content[from..to], right, last);
    Regroup(first, left, other[from..to], right, last);
    head, tail := first + left, right + last;
  }

  /** Damage confined to four consecutive bytes of one extent is always reported. */
  lemma DamageIsReported(content: seq<Byte>, other: seq<Byte>, x: Item, k: nat, from: nat, to: nat)
    requires k < |x.extents| && ExtentsApart(x.extents) && ItemHolds(content, x)
    requires DamagedIn(content, other, from, to) && to <= from + 4
    requires x.extents[k].offset <= from && to <= x.extents[k].End()
    ensures WalkOf(other, x.extents) != ChecksumOf(x)
  {
    var e, before, after := x.extents[k], x.extents[..k], x.extents[k + 1..];
    assert Holds(content, e);
    assert x.extents == before + ([e] + after);
    var head, tail := DamageSplits(content, other, before, e, after, from, to);
    StandingItemReadsBack(content, x.extents);
    Crc32c.BurstIsDetected(head, content[from..to], other[from..to], tail, 0);
  }
}
