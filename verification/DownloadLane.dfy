/** The bounded download lane that feeds one GPU consumer, in order, from concurrent fetches. */
module DownloadLane {
  import opened Adversary
  import opened Collections

  const SOURCE_STAGING_COPIES := 2

  datatype DenseItem = DenseItem(name: int, sizeBytes: nat)

  /** Staging a fetch needs: the downloaded bytes and the tensor, and never nothing. */
  function Reservation(item: DenseItem): (r: int)
    ensures r >= 1 && r >= 2 * item.sizeBytes && (r == 1 || r == 2 * item.sizeBytes)
  {
    if item.sizeBytes * SOURCE_STAGING_COPIES < 1 then 1 else item.sizeBytes * SOURCE_STAGING_COPIES
  }

  function Total(items: seq<DenseItem>): int {
    if items == [] then 0 else Reservation(items[0]) + Total(items[1..])
  }

  lemma {:induction false} TotalAppend(items: seq<DenseItem>, item: DenseItem)
    ensures Total(items + [item]) == Total(items) + Reservation(item)
  {
    if items == [] {
      assert [item][1..] == [];
    } else {
      assert (items + [item])[1..] == items[1..] + [item];
      TotalAppend(items[1..], item);
    }
  }

  lemma {:induction false} TotalIsPositive(items: seq<DenseItem>)
    ensures Total(items) >= |items|
  {
    if items != [] {
      TotalIsPositive(items[1..]);
    }
  }

  datatype Outcome = Exhausted | FetchFailed | Closed | Oversized | BadLimit

  /** The generator's state: what was yielded, what is being fetched, what is still to come. */
  class Lane {
    const pending: seq<DenseItem>
    const workers: nat
    const stagingLimit: int
    var next: nat
    var inflight: seq<DenseItem>
    /** The item in the consumer's hands. */
    var current: Option<DenseItem>
    var reserved: int
    var peak: int
    var yielded: seq<DenseItem>

    /** Fetches run in order right behind what was yielded; every byte reserved belongs to a
        fetch or to the item being consumed, and the limit is never exceeded. */
    ghost predicate Valid()
      reads this
    {
      && |yielded| <= next <= |pending|
      && yielded == pending[..|yielded|]
      && inflight == pending[|yielded|..next]
      && |inflight| <= workers
      && (current.Some? ==> yielded != [] && current.value == yielded[|yielded| - 1])
      && reserved == Total(inflight) + (if current.Some? then Reservation(current.value) else 0)
      && 0 <= reserved <= peak
      && (peak == 0 || peak <= stagingLimit)
    }

    /** None of the first `n` items is oversized. */
    ghost predicate FitUpTo(n: nat) {
      forall k :: 0 <= k < n && k < |pending| ==> Reservation(pending[k]) <= stagingLimit
    }

    constructor (pending: seq<DenseItem>, workers: nat, stagingLimit: int)
      ensures Valid() && this.pending == pending && this.workers == workers && this.stagingLimit == stagingLimit
      ensures next == 0 && yielded == [] && current == None
    {
      this.pending, this.workers, this.stagingLimit := pending, workers, stagingLimit;
      next, inflight, current, reserved, peak, yielded := 0, [], None, 0, 0, [];
    }

    /** Start the next fetch and take its reservation. */
    method Submit()
      requires Valid() && current == None && next < |pending| && |inflight| < workers
      requires Reservation(pending[next]) <= stagingLimit
      requires inflight == [] || reserved + Reservation(pending[next]) <= stagingLimit
      modifies this`next, this`inflight, this`reserved, this`peak
      ensures Valid() && next == old(next) + 1 && inflight == old(inflight) + [pending[old(next)]]
    {
      var item := pending[next];
      TotalAppend(inflight, item);
      assert pending[|yielded|..next + 1] == pending[|yielded|..next] + [item];
      inflight, reserved := inflight + [item], reserved + Reservation(item);
      peak := if peak < reserved then reserved else peak;
      next := next + 1;
    }

    /** Start fetches while a worker is free and the reservation fits. Fails at an item that
        could never fit. */
    method SubmitAvailable() returns (ok: bool)
      requires Valid() && current == None && FitUpTo(next) && workers >= 1
      modifies this`next, this`inflight, this`reserved, this`peak
      ensures Valid() && FitUpTo(next) && next >= old(next)
      ensures ok ==> (inflight == [] ==> next == |pending|)
      ensures !ok ==> next < |pending| && Reservation(pending[next]) > stagingLimit && |inflight| < workers
      ensures ok && next < |pending| ==> |inflight| == workers || reserved + Reservation(pending[next]) > stagingLimit
    {
      while next < |pending| && |inflight| < workers
        invariant Valid() && FitUpTo(next) && next >= old(next)
        decreases |pending| - next
      {
        var item := pending[next];
        if Reservation(item) > stagingLimit {
          return false;
        }
        if inflight != [] && reserved + Reservation(item) > stagingLimit {
          break;
        }
        Submit();
      }
      return true;
    }

    /** Hand the oldest fetch to the consumer, its reservation still held. */
    method Yield()
      requires Valid() && current == None && inflight != []
      modifies this`inflight, this`current, this`yielded
      ensures Valid() && current.Some? && yielded == old(yielded) + [old(inflight)[0]]
    {
      current, yielded, inflight := Some(inflight[0]), yielded + [inflight[0]], inflight[1..];
    }

    /** The consumer is done with the item. */
    method Release()
      requires Valid() && current.Some?
      modifies this`current, this`reserved
      ensures Valid() && current == None
    {
      TotalIsPositive(inflight);
      reserved := reserved - Reservation(current.value);
      current := None;
    }

    /** One item through the consumer's hands. */
    method Consume()
      requires Valid() && current == None && inflight != []
      modifies this`inflight, this`current, this`yielded, this`reserved
      ensures Valid() && current == None && yielded == old(yielded) + [old(inflight)[0]]
    {
      Yield();
      Release();
    }

    /** The whole iteration. Fetches may fail and the consumer may stop early only when not
        `calm`. In a calm run everything is yielded, in order and once, exactly when no item is
        oversized; at the first oversized item fewer than `workers` items before it are lost. */
    method Iterate(calm: bool) returns (outcome: Outcome)
      requires Valid() && next == 0 && yielded == [] && current == None && peak == 0 && workers > 1
      modifies this
      ensures Valid() && yielded == pending[..|yielded|]
      ensures outcome.BadLimit? <==> stagingLimit <= 0
      ensures outcome.BadLimit? ==> yielded == []
      ensures outcome.Exhausted? ==> yielded == pending && reserved == 0
      ensures calm && stagingLimit > 0 ==>
        (outcome.Exhausted? <==> FitUpTo(|pending|))
      ensures calm ==> outcome.Exhausted? || outcome.Oversized? || outcome.BadLimit?
      ensures outcome.Oversized? ==>
        next < |pending| && FitUpTo(next) && Reservation(pending[next]) > stagingLimit && next < |yielded| + workers
    {
      hide Total, Reservation;
      if stagingLimit <= 0 {
        return BadLimit;
      }
      var ok := SubmitAvailable();
      if !ok {
        return Oversized;
      }
      while inflight != []
        invariant Valid() && current == None && FitUpTo(next)
        invariant inflight == [] ==> next == |pending|
        decreases |pending| - |yielded|
      {
        var failed := AnyFlag();
        if failed && !calm {
          return FetchFailed;
        }
        Consume();
        var closed := AnyFlag();
        if closed && !calm {
          return Closed;
        }
        ok := SubmitAvailable();
        if !ok {
          return Oversized;
        }
      }
      return Exhausted;
    }
  }
}
